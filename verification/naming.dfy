/**
 Where a photo goes in the library: the folder `<root>\<year>\<make>` and, for
 collision attempt `n`, the file name
 `YYYYMMDD-HHMMSS[_n]_(<stem>)<ext>` built from the photo's date and its
 original file name.
 */
module Naming {

  import opened Decimal
  import opened Timestamps
  import opened Paths

  /** A photo to file: its source path, its resolved date and its camera make. */
  datatype ImageRecord = ImageRecord(source: string, date: DateTime, make: string)

  const StampLength := 15

  /** `s` reads as the date `t` in the layout `YYYYMMDD-HHMMSS`, field by field. */
  predicate ReadsAs(s: string, t: Timestamp) {
    && |s| == StampLength && s[8] == '-'
    && AllDigits(s[0..4]) && Value(s[0..4]) == t.year
    && AllDigits(s[4..6]) && Value(s[4..6]) == t.month
    && AllDigits(s[6..8]) && Value(s[6..8]) == t.day
    && AllDigits(s[9..11]) && Value(s[9..11]) == t.hour
    && AllDigits(s[11..13]) && Value(s[11..13]) == t.minute
    && AllDigits(s[13..15]) && Value(s[13..15]) == t.second
  }

  /** `date.strftime("%Y%m%d-%H%M%S")`. */
  function StampName(t: DateTime): (s: string)
    ensures ReadsAs(s, t)
    ensures AllDigits(s[..8]) && AllDigits(s[9..]) && IsDigit(s[0])
  {
    var s := Fixed(t.year, 4) + Fixed(t.month, 2) + Fixed(t.day, 2) + "-"
             + Fixed(t.hour, 2) + Fixed(t.minute, 2) + Fixed(t.second, 2);
    StampSlices(Fixed(t.year, 4), Fixed(t.month, 2), Fixed(t.day, 2),
                Fixed(t.hour, 2), Fixed(t.minute, 2), Fixed(t.second, 2));
    assert Pow10(2) == 100 && Pow10(4) == 10000;
    ValueOfFixed(t.year, 4);
    ValueOfFixed(t.month, 2);
    ValueOfFixed(t.day, 2);
    ValueOfFixed(t.hour, 2);
    ValueOfFixed(t.minute, 2);
    ValueOfFixed(t.second, 2);
    assert s[0] == s[0..4][0];
    s
  }

  /** Where the six fields and the dash sit in a stamp assembled from its parts. */
  lemma StampSlices(y: string, mo: string, d: string, h: string, mi: string, se: string)
    requires |y| == 4 && |mo| == 2 && |d| == 2 && |h| == 2 && |mi| == 2 && |se| == 2
    requires AllDigits(y) && AllDigits(mo) && AllDigits(d)
    requires AllDigits(h) && AllDigits(mi) && AllDigits(se)
    ensures var s := y + mo + d + "-" + h + mi + se;
            && |s| == StampLength && s[8] == '-'
            && s[0..4] == y && s[4..6] == mo && s[6..8] == d
            && s[9..11] == h && s[11..13] == mi && s[13..15] == se
            && s[..8] == y + mo + d && s[9..] == h + mi + se
  {
    var s := y + mo + d + "-" + h + mi + se;
    assert s[..8] == y + mo + d;
    assert s[9..] == h + mi + se;
    assert s[0..4] == s[..8][0..4];
    assert s[4..6] == s[..8][4..6];
    assert s[6..8] == s[..8][6..8];
    assert s[9..11] == s[9..][0..2];
    assert s[11..13] == s[9..][2..4];
    assert s[13..15] == s[9..][4..6];
  }

  /** Distinct dates get distinct stamps, down to the second. */
  lemma StampNameInjective(a: DateTime, b: DateTime)
    requires StampName(a) == StampName(b)
    ensures a == b
  {
  }

  /** The stamp assembled from the renderings of its six fields. */
  lemma StampOfParts(t: DateTime, y: string, mo: string, d: string, h: string, mi: string, s: string)
    requires Fixed(t.year, 4) == y && Fixed(t.month, 2) == mo && Fixed(t.day, 2) == d
    requires Fixed(t.hour, 2) == h && Fixed(t.minute, 2) == mi && Fixed(t.second, 2) == s
    ensures StampName(t) == y + mo + d + "-" + h + mi + s
  {
  }

  /** The collision counter in the name: nothing on the first attempt, `_<n>` after. */
  function AttemptSuffix(n: nat): (s: string)
    ensures n == 0 <==> s == ""
    ensures n > 0 ==> |s| >= 2 && s[0] == '_' && IsDigit(s[1])
    ensures n > 0 ==> IsCanonical(s[1..]) && Value(s[1..]) == n
  {
    if n > 0 then
      var s := "_" + NatToString(n);
      assert s[1..] == NatToString(n);
      s
    else ""
  }

  lemma AttemptSuffixInjective(m: nat, n: nat)
    requires AttemptSuffix(m) == AttemptSuffix(n)
    ensures m == n
  {
    if m > 0 && n > 0 {
      assert NatToString(m) == AttemptSuffix(m)[1..];
      NatToStringInjective(m, n);
    }
  }

  /** The original name in parentheses before its extension: `_(<stem>)<ext>`. */
  function OriginalPart(file: string): (s: string)
    ensures |s| == |file| + 3 && s[..2] == "_("
    ensures var ext := SplitExt(file).1;
            && s[|s| - |ext|..] == ext
            && s[|s| - |ext| - 1] == ')'
            && s[2..|s| - |ext| - 1] + ext == file
  {
    var parts := SplitExt(file);
    var s := "_(" + parts.0 + ")" + parts.1;
    assert s[2..|s| - |parts.1| - 1] == parts.0;
    assert s[|s| - |parts.1|..] == parts.1;
    s
  }

  /**
   The destination file name of attempt `n`: the stamp, the attempt suffix, then
   the original stem in parentheses followed by the original extension.
   */
  function EntryName(t: DateTime, n: nat, file: string): (s: string)
    ensures |s| == StampLength + |AttemptSuffix(n)| + |file| + 3
    ensures s[..StampLength] == StampName(t)
    ensures s[StampLength..StampLength + 2] == "_(" <==> n == 0
    ensures !IsAbsolute(s)
    ensures s == StampName(t) + AttemptSuffix(n) + "_(" + SplitExt(file).0 + ")" + SplitExt(file).1
  {
    var tail := OriginalPart(file);
    EntryNameShape(StampName(t), AttemptSuffix(n), tail);
    NameParts(StampName(t), AttemptSuffix(n), tail, SplitExt(file).0, SplitExt(file).1);
    StampName(t) + AttemptSuffix(n) + tail
  }

  /** Regrouping the concatenation that makes up an entry name. */
  lemma NameParts(stamp: string, suffix: string, tail: string, stem: string, ext: string)
    requires tail == "_(" + stem + ")" + ext
    ensures stamp + suffix + tail == stamp + suffix + "_(" + stem + ")" + ext
  {
  }

  lemma EntryNameShape(stamp: string, suffix: string, tail: string)
    requires |stamp| == StampLength && IsDigit(stamp[0])
    requires suffix == "" || (|suffix| >= 2 && IsDigit(suffix[1]))
    requires |tail| >= 2 && tail[..2] == "_("
    ensures var s := stamp + suffix + tail;
            && s[..StampLength] == stamp
            && (s[StampLength..StampLength + 2] == "_(" <==> suffix == "")
            && !IsAbsolute(s)
  {
    var s := stamp + suffix + tail;
    assert s[..StampLength] == stamp;
    assert s[0] == stamp[0];
    if suffix == "" {
      assert s[StampLength..StampLength + 2] == tail[..2];
    } else {
      assert s[StampLength + 1] == suffix[1];
      assert s[StampLength..StampLength + 2][1] == suffix[1];
    }
  }

  /** Different attempts of the same photo never produce the same name. */
  lemma EntryNameInjective(t: DateTime, m: nat, n: nat, file: string)
    requires EntryName(t, m, file) == EntryName(t, n, file)
    ensures m == n
  {
    var tail := OriginalPart(file);
    var a := StampName(t) + AttemptSuffix(m);
    var b := StampName(t) + AttemptSuffix(n);
    assert |a| == |b|;
    assert a == (a + tail)[..|a|];
    assert b == (b + tail)[..|b|];
    assert AttemptSuffix(m) == a[StampLength..];
    assert AttemptSuffix(n) == b[StampLength..];
    AttemptSuffixInjective(m, n);
  }

  /**
   `os.path.join(root, str(date.year), make)`: the year folder, then the make
   folder verbatim. An absolute make leaves the root and keeps only its drive.
   */
  function Folder(root: string, t: DateTime, make: string): (f: string)
    ensures !IsAbsolute(make) ==> f == root + Glue(root) + NatToString(t.year) + [Sep] + make
    ensures IsAbsolute(make) ==> f == Drive(root) + make
  {
    YearFolder(root, NatToString(t.year));
    Join(Join(root, NatToString(t.year)), make)
  }

  /**
   Joining a root with a digit string: the digits follow the root's glue, the
   result keeps the root's drive and needs a backslash before the next component.
   */
  lemma YearFolder(root: string, year: string)
    requires |year| >= 1 && AllDigits(year)
    ensures var p := Join(root, year);
            && p == root + Glue(root) + year
            && Drive(p) == Drive(root)
            && Glue(p) == [Sep]
  {
    var p := Join(root, year);
    assert !IsAbsolute(year);
    assert p[|p| - 1] == year[|year| - 1];
    if |root| >= 2 {
      assert p[..2] == root[..2];
    } else if |p| >= 2 {
      if |root| == 0 {
        assert p[1] == year[1];
      } else if Glue(root) == "" {
        assert p[1] == year[0];
      } else {
        assert p[1] == Sep;
      }
    }
    GlueAfterDigit(p);
  }

  /** The path probed on attempt `n` for a photo: the folder, its glue, then the entry name. */
  function Candidate(root: string, rec: ImageRecord, n: nat): (p: string)
    ensures var folder := Folder(root, rec.date, rec.make);
            p == folder + Glue(folder) + EntryName(rec.date, n, Basename(rec.source))
  {
    Join(Folder(root, rec.date, rec.make), EntryName(rec.date, n, Basename(rec.source)))
  }

  /** The candidate spelled out the way the organiser's loop builds it. */
  lemma CandidateSpelled(root: string, rec: ImageRecord, n: nat)
    ensures Candidate(root, rec, n)
            == Join(Folder(root, rec.date, rec.make),
                    StampName(rec.date) + AttemptSuffix(n) + OriginalPart(Basename(rec.source)))
  {
  }

  /** Every candidate lies in the photo's folder and its name starts with the photo's stamp. */
  lemma CandidateInFolder(root: string, rec: ImageRecord, n: nat)
    ensures var folder := Folder(root, rec.date, rec.make) + Glue(Folder(root, rec.date, rec.make));
            var p := Candidate(root, rec, n);
            && folder <= p
            && p[|folder|..][..StampLength] == StampName(rec.date)
  {
    var folder := Folder(root, rec.date, rec.make) + Glue(Folder(root, rec.date, rec.make));
    var name := EntryName(rec.date, n, Basename(rec.source));
    assert Candidate(root, rec, n) == folder + name;
    assert Candidate(root, rec, n)[|folder|..] == name;
  }

  /** The probe never visits the same path twice. */
  lemma CandidateInjective(root: string, rec: ImageRecord, m: nat, n: nat)
    requires Candidate(root, rec, m) == Candidate(root, rec, n)
    ensures m == n
  {
    var folder := Folder(root, rec.date, rec.make);
    var file := Basename(rec.source);
    JoinCancel(folder, EntryName(rec.date, m, file), EntryName(rec.date, n, file));
    EntryNameInjective(rec.date, m, n, file);
  }

  /** A path whose last character is a digit needs a backslash before the next component. */
  lemma GlueAfterDigit(p: string)
    requires |p| > 0 && IsDigit(p[|p| - 1])
    ensures Glue(p) == [Sep]
  {
  }

  /** Worked example: year 2023, make Canon, under the hard-wired root `D:/Img/`. */
  lemma LayoutExample(t: DateTime)
    requires t.year == 2023
    ensures Folder("D:/Img/", t, "Canon") == "D:/Img/2023\\Canon"
  {
    assert NatToString(2023) == "2023";
  }

  /** Worked example: attempt 12 for `IMG_1.jpg` taken on 2021-05-17 at 10:22:33. */
  lemma EntryNameExample(t: DateTime)
    requires t == Timestamp(2021, 5, 17, 10, 22, 33)
    ensures EntryName(t, 12, "IMG_1.jpg") == "20210517-102233_12_(IMG_1).jpg"
  {
    ExampleStamp(t);
    ExampleSuffix();
    ExampleSplit("IMG_1.jpg");
    NameOfParts(t, 12, "IMG_1.jpg", "20210517-102233", "_12", "IMG_1", ".jpg");
    ExampleConcat("20210517-102233", "_12", "IMG_1", ".jpg");
  }

  lemma ExampleConcat(stamp: string, suffix: string, stem: string, ext: string)
    requires stamp == "20210517-102233" && suffix == "_12" && stem == "IMG_1" && ext == ".jpg"
    ensures stamp + suffix + "_(" + stem + ")" + ext == "20210517-102233_12_(IMG_1).jpg"
  {
  }

  /** An entry name assembled from its rendered parts. */
  lemma NameOfParts(t: DateTime, n: nat, file: string, stamp: string, suffix: string, stem: string, ext: string)
    requires StampName(t) == stamp && AttemptSuffix(n) == suffix && SplitExt(file) == (stem, ext)
    ensures EntryName(t, n, file) == stamp + suffix + "_(" + stem + ")" + ext
  {
  }

  lemma ExampleSuffix()
    ensures AttemptSuffix(12) == "_12"
  {
    assert NatToString(12) == "12";
  }

  lemma ExampleStamp(t: DateTime)
    requires t == Timestamp(2021, 5, 17, 10, 22, 33)
    ensures StampName(t) == "20210517-102233"
  {
    YearDigits(2021);
    StampOfParts(t, "2021", "05", "17", "10", "22", "33");
  }

  lemma ExampleSplit(file: string)
    requires file == "IMG_1.jpg"
    ensures SplitExt(file) == ("IMG_1", ".jpg")
  {
    NoSeparatorLastSep(file);
    LastDotSkip("IMG_1.", "jpg");
    assert file == "IMG_1." + "jpg";
    assert LastDot("IMG_1.") == 5;
    assert file[0..5][0] != ExtSep;
    assert file[..5] == "IMG_1" && file[5..] == ".jpg";
  }
}
