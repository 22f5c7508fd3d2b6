/**
 Date and camera-make resolution from a photo's decoded EXIF tags, a map from
 tag name to the tag's printed value.
 */
module ExifTags {

  import opened Wrappers
  import opened Timestamps

  type Tags = map<string, string>

  /** When the picture was taken: consulted first. */
  const DateTimeOriginalTag := "EXIF DateTimeOriginal"
  /** When the file was last written by the camera or an editor: consulted second. */
  const DateTimeTag := "Image DateTime"
  const MakeTag := "Image Make"
  const UnknownMake := "Unknown"

  /**
   The one tag whose value decides the tag-derived date: the original capture
   time when that tag is present at all, else the modification time, else none.
   */
  function DecidingTag(tags: Tags): Option<string>
  {
    if DateTimeOriginalTag in tags then Some(tags[DateTimeOriginalTag])
    else if DateTimeTag in tags then Some(tags[DateTimeTag])
    else None
  }

  /** The deciding tag exists and holds the EXIF rendering of a date. */
  ghost predicate HasTagDate(tags: Tags) {
    DecidingTag(tags).Some? && IsExifDate(DecidingTag(tags).value)
  }

  /**
   `get_date_from_tags`: the date written in the deciding tag, or `None` when no
   date tag is present or the deciding tag does not hold an EXIF date.
   */
  function DateFromTags(tags: Tags): (r: Option<DateTime>)
    ensures r.Some? <==> HasTagDate(tags)
    ensures r.Some? ==> ExifText(r.value) == DecidingTag(tags).value
  {
    var deciding := DecidingTag(tags);
    if deciding.Some? then
      ParseExifDateNone(deciding.value);
      ParseExifDate(deciding.value)
    else
      None
  }

  /** With the original capture time present, the date is its parse, whatever else the tags hold. */
  lemma PrimaryTagDecides(tags: Tags, other: string)
    requires DateTimeOriginalTag in tags
    ensures DateFromTags(tags) == ParseExifDate(tags[DateTimeOriginalTag])
    ensures DateFromTags(tags[DateTimeTag := other]) == DateFromTags(tags)
  {
    assert DecidingTag(tags[DateTimeTag := other]) == DecidingTag(tags);
  }

  /**
   An unreadable original capture time yields no date even when the
   modification time is a valid EXIF date: the second tag is not consulted.
   */
  lemma UnparsablePrimaryHidesSecondary(tags: Tags)
    requires DateTimeOriginalTag in tags && !IsExifDate(tags[DateTimeOriginalTag])
    ensures DateFromTags(tags) == None
  {
  }

  /** Without the original capture time, the date is the parse of the modification time, if present. */
  lemma SecondaryOnlyWithoutPrimary(tags: Tags)
    requires DateTimeOriginalTag !in tags
    ensures DateTimeTag in tags ==> DateFromTags(tags) == ParseExifDate(tags[DateTimeTag])
    ensures DateTimeTag !in tags ==> DateFromTags(tags) == None
  {
  }

  /**
   `get_date_from_tags(tags) or get_date_from_os(path)`: the tag-derived date,
   or the file's modification time `osTime` when the tags give none. A
   `datetime` is always true in Python, so the result is never `None`.
   */
  function ImageDate(tags: Tags, osTime: DateTime): (r: Option<DateTime>)
    ensures r.Some?
    ensures HasTagDate(tags) ==> ExifText(r.value) == DecidingTag(tags).value
    ensures !HasTagDate(tags) ==> r.value == osTime
  {
    var fromTags := DateFromTags(tags);
    if fromTags.Some? then fromTags else Some(osTime)
  }

  /** `image_make`: the printed make tag when present, else the sentinel `"Unknown"`. */
  function CameraMake(tags: Tags): (make: string)
    ensures MakeTag in tags ==> make == tags[MakeTag]
    ensures MakeTag !in tags ==> make == UnknownMake
  {
    if MakeTag in tags then tags[MakeTag] else UnknownMake
  }

  /** Worked example: either date tag alone with the same text gives the same date. */
  lemma EitherTagAloneExample(osTime: DateTime)
    ensures var s := "2021:05:17 10:22:33";
            && ImageDate(map[DateTimeOriginalTag := s], osTime) == Some(Timestamp(2021, 5, 17, 10, 22, 33))
            && ImageDate(map[DateTimeTag := s], osTime) == Some(Timestamp(2021, 5, 17, 10, 22, 33))
    ensures ImageDate(map[], osTime) == Some(osTime)
  {
    ParseExample();
    assert DateTimeOriginalTag !in map[DateTimeTag := "2021:05:17 10:22:33"];
  }
}
