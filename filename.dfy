/**
  The base file name of the generated book (`create_dynamic_filename`): the title with every
  character dropped except ASCII letters, digits, space, '.', '-' and '_', trailing whitespace
  removed, spaces turned into underscores and letters lowercased, followed by `_book_` and the
  time of the call formatted as `YYYYMMDD_HHMMSS`. The clock reading is a parameter.
 */
module Filename {
  import opened PyStr

  // ---------------------------------------------------------------------------------------
  // Character classes
  // ---------------------------------------------------------------------------------------

  /** `c.isalnum()` for an ASCII character. */
  predicate IsAlnum(c: char) {
    'a' <= c <= 'z' || 'A' <= c <= 'Z' || '0' <= c <= '9'
  }

  /** The filter's test: `c.isalnum() or c in (' ', '.', '-', '_')`. */
  predicate Kept(c: char) {
    IsAlnum(c) || c == ' ' || c == '.' || c == '-' || c == '_'
  }

  /** The characters a sanitised title (and a whole file name) is made of. */
  predicate IsFilenameChar(c: char) {
    'a' <= c <= 'z' || '0' <= c <= '9' || c == '.' || c == '-' || c == '_'
  }

  predicate AllFilenameChars(s: string) {
    forall i :: 0 <= i < |s| ==> IsFilenameChar(s[i])
  }

  // ---------------------------------------------------------------------------------------
  // The four steps
  // ---------------------------------------------------------------------------------------

  /** `"".join(c for c in s if Kept(c))`. */
  function KeepAllowed(s: string): (r: string)
    ensures |r| <= |s|
    ensures forall i :: 0 <= i < |r| ==> Kept(r[i])
  {
    if s == [] then []
    else (if Kept(s[0]) then [s[0]] else []) + KeepAllowed(s[1..])
  }

  /** `s.replace(" ", "_")`. */
  function ReplaceSpaces(s: string): string {
    seq(|s|, i requires 0 <= i < |s| => if s[i] == ' ' then '_' else s[i])
  }

  /** `c.lower()` for an ASCII character. */
  function LowerChar(c: char): char {
    if 'A' <= c <= 'Z' then (c as int + 32) as char else c
  }

  /** `s.lower()`. */
  function Lower(s: string): string {
    seq(|s|, i requires 0 <= i < |s| => LowerChar(s[i]))
  }

  /** The sanitised title: filter, strip trailing whitespace, replace spaces, lowercase.
      Only lowercase letters, digits, '.', '-' and '_' remain, one for each character of
      the filtered and stripped title. */
  function Sanitize(title: string): (r: string)
    ensures |r| == |RStrip(KeepAllowed(title))| <= |title|
    ensures AllFilenameChars(r)
  {
    var f := RStrip(KeepAllowed(title));
    assert forall i :: 0 <= i < |f| ==> Kept(f[i]) by {
      forall i | 0 <= i < |f| ensures Kept(f[i]) {
        assert f[i] == KeepAllowed(title)[i];
      }
    }
    Lower(ReplaceSpaces(f))
  }

  // ---------------------------------------------------------------------------------------
  // The timestamp
  // ---------------------------------------------------------------------------------------

  /** A reading of `datetime.datetime.now()`. */
  datatype DateTime = DateTime(year: nat, month: nat, day: nat, hour: nat, minute: nat, second: nat)

  /** The ranges `datetime` keeps its fields in. */
  predicate ValidDateTime(d: DateTime) {
    1 <= d.year <= 9999 && 1 <= d.month <= 12 && 1 <= d.day <= 31 &&
    d.hour < 24 && d.minute < 60 && d.second < 60
  }

  /** `n` in decimal, zero-padded on the left to `w` digits (`%0wd`). */
  function Pad(n: nat, w: nat): string {
    var s := NatToString(n);
    if |s| >= w then s else Zeros(w - |s|) + s
  }

  /** A number below 10^w pads to exactly `w` digits that read back as the number. */
  lemma PadFits(n: nat, w: nat)
    requires 1 <= w && n < Pow10(w)
    ensures |Pad(n, w)| == w && AllDigits(Pad(n, w)) && ParseNat(Pad(n, w)) == n
  {
    NatToStringLength(n, w);
    ParseNatToString(n);
    var s := NatToString(n);
    if |s| < w {
      ParseNatLeadingZeros(w - |s|, s);
    }
  }

  /** `now.strftime("%Y%m%d_%H%M%S")`: eight digits, an underscore, six digits. */
  function FormatTimestamp(d: DateTime): (r: string)
    requires ValidDateTime(d)
    ensures |r| == 15 && r[8] == '_' && AllDigits(r[..8]) && AllDigits(r[9..])
  {
    PadFits(d.year, 4);
    PadFits(d.month, 2);
    PadFits(d.day, 2);
    PadFits(d.hour, 2);
    PadFits(d.minute, 2);
    PadFits(d.second, 2);
    var date := Pad(d.year, 4) + Pad(d.month, 2) + Pad(d.day, 2);
    var time := Pad(d.hour, 2) + Pad(d.minute, 2) + Pad(d.second, 2);
    var r := date + "_" + time;
    assert r[..8] == date && r[9..] == time;
    r
  }

  /** Each field of the reading can be read back from its place in the timestamp. */
  lemma TimestampFields(d: DateTime)
    requires ValidDateTime(d)
    ensures var r := FormatTimestamp(d);
      ParseNat(r[0..4]) == d.year && ParseNat(r[4..6]) == d.month && ParseNat(r[6..8]) == d.day &&
      ParseNat(r[9..11]) == d.hour && ParseNat(r[11..13]) == d.minute && ParseNat(r[13..15]) == d.second
  {
    PadFits(d.year, 4);
    PadFits(d.month, 2);
    PadFits(d.day, 2);
    PadFits(d.hour, 2);
    PadFits(d.minute, 2);
    PadFits(d.second, 2);
    TimestampSlices(Pad(d.year, 4), Pad(d.month, 2), Pad(d.day, 2), Pad(d.hour, 2), Pad(d.minute, 2), Pad(d.second, 2));
  }

  /** Where the six fields sit in the timestamp. */
  lemma TimestampSlices(y: string, mo: string, dd: string, h: string, mi: string, s: string)
    requires |y| == 4 && |mo| == 2 && |dd| == 2 && |h| == 2 && |mi| == 2 && |s| == 2
    ensures var r := (y + mo + dd) + "_" + (h + mi + s);
      r[0..4] == y && r[4..6] == mo && r[6..8] == dd && r[9..11] == h && r[11..13] == mi && r[13..15] == s
  {
  }

  // ---------------------------------------------------------------------------------------
  // The file name
  // ---------------------------------------------------------------------------------------

  const BOOK_INFIX := "_book_"

  /** `create_dynamic_filename(title)` when the clock reads `now`. */
  function DynamicFilename(title: string, now: DateTime): (name: string)
    requires ValidDateTime(now)
    ensures |name| == |Sanitize(title)| + 21 && name[..|Sanitize(title)|] == Sanitize(title)
  {
    Sanitize(title) + BOOK_INFIX + FormatTimestamp(now)
  }

  /** The name splits back into the sanitised title, the infix and a `\d{8}_\d{6}`
      timestamp: the last 21 characters are always `_book_` and the timestamp. */
  lemma FilenameLayout(title: string, now: DateTime)
    requires ValidDateTime(now)
    ensures var name := DynamicFilename(title, now);
      var n := |name| - 21;
      n == |Sanitize(title)| && name[..n] == Sanitize(title) &&
      name[n..n + 6] == BOOK_INFIX && name[n + 6..] == FormatTimestamp(now) &&
      name[n + 14] == '_' && AllDigits(name[n + 6..n + 14]) && AllDigits(name[n + 15..])
  {
    var name := DynamicFilename(title, now);
    var n := |Sanitize(title)|;
    var ts := FormatTimestamp(now);
    assert name[n + 6..] == ts;
    assert name[n + 6..n + 14] == ts[..8];
    assert name[n + 15..] == ts[9..];
  }

  /** The whole file name is made of lowercase letters, digits, '.', '-' and '_'. */
  lemma FilenameAlphabet(title: string, now: DateTime)
    requires ValidDateTime(now)
    ensures AllFilenameChars(DynamicFilename(title, now))
  {
    var s := Sanitize(title);
    var ts := FormatTimestamp(now);
    var name := DynamicFilename(title, now);
    forall i | 0 <= i < |name| ensures IsFilenameChar(name[i]) {
      if i < |s| {
        assert name[i] == s[i];
      } else if i < |s| + 6 {
        assert name[i] == BOOK_INFIX[i - |s|];
      } else {
        var j := i - |s| - 6;
        assert name[i] == ts[j];
        if j < 8 { assert ts[j] == ts[..8][j]; }
        else if j > 8 { assert ts[j] == ts[9..][j - 9]; }
      }
    }
  }

  /** A title with nothing left after sanitising gives `_book_` and the timestamp alone. */
  lemma EmptyTitleFilename(title: string, now: DateTime)
    requires ValidDateTime(now)
    requires forall i :: 0 <= i < |title| ==> !Kept(title[i]) || title[i] == ' '
    ensures DynamicFilename(title, now) == BOOK_INFIX + FormatTimestamp(now)
  {
    SanitizeEmpty(title);
  }

  // ---------------------------------------------------------------------------------------
  // Properties of the sanitiser
  // ---------------------------------------------------------------------------------------

  /** `a` is a subsequence of `b`: its characters appear in `b` in the same order. */
  predicate IsSubsequence(a: string, b: string)
    decreases |b|
  {
    a == [] || (b != [] && ((a[0] == b[0] && IsSubsequence(a[1..], b[1..])) || IsSubsequence(a, b[1..])))
  }

  lemma {:induction false} SubsequencePrefix(a: string, b: string, n: nat)
    requires IsSubsequence(a, b) && n <= |a|
    ensures IsSubsequence(a[..n], b)
    decreases |b|
  {
    if n == 0 || a == [] {
    } else if a[0] == b[0] && IsSubsequence(a[1..], b[1..]) {
      SubsequencePrefix(a[1..], b[1..], n - 1);
      assert a[..n][1..] == a[1..][..n - 1];
    } else {
      SubsequencePrefix(a, b[1..], n);
    }
  }

  /** The filter keeps characters in their original order. */
  lemma {:induction false} KeepAllowedSubsequence(s: string)
    ensures IsSubsequence(KeepAllowed(s), s)
    decreases |s|
  {
    if s != [] {
      KeepAllowedSubsequence(s[1..]);
      if Kept(s[0]) {
        assert KeepAllowed(s)[1..] == KeepAllowed(s[1..]);
      } else {
        assert KeepAllowed(s) == KeepAllowed(s[1..]);
      }
    }
  }

  /** The filter keeps every occurrence of a kept character and no other character. */
  lemma {:induction false} KeepAllowedCounts(s: string, c: char)
    ensures multiset(KeepAllowed(s))[c] == if Kept(c) then multiset(s)[c] else 0
    decreases |s|
  {
    if s != [] {
      KeepAllowedCounts(s[1..], c);
      assert s == [s[0]] + s[1..];
      assert multiset(s) == multiset([s[0]]) + multiset(s[1..]);
      assert KeepAllowed(s) == (if Kept(s[0]) then [s[0]] else []) + KeepAllowed(s[1..]);
    }
  }

  /** A string of kept characters passes the filter unchanged. */
  lemma {:induction false} KeepAllowedIdentity(s: string)
    requires forall i :: 0 <= i < |s| ==> Kept(s[i])
    ensures KeepAllowed(s) == s
    decreases |s|
  {
    if s != [] {
      KeepAllowedIdentity(s[1..]);
    }
  }

  /** Before spaces are replaced, the filtered title is a subsequence of the title that does
      not end in whitespace, and only whitespace was cut from its end. */
  lemma FilteredTitle(title: string)
    ensures var f := RStrip(KeepAllowed(title));
      IsSubsequence(f, title) && (f == [] || !IsSpace(f[|f| - 1])) &&
      AllSpace(KeepAllowed(title)[|f|..])
  {
    var k := KeepAllowed(title);
    KeepAllowedSubsequence(title);
    SubsequencePrefix(k, title, |RStrip(k)|);
  }

  /** No space and no uppercase letter survives sanitising. */
  lemma SanitizedLowercaseNoSpace(title: string)
    ensures forall i :: 0 <= i < |Sanitize(title)| ==>
      Sanitize(title)[i] != ' ' && !('A' <= Sanitize(title)[i] <= 'Z')
  {
  }

  /** Character by character: a space or an underscore of the filtered title becomes an
      underscore, any other character its lowercase form. */
  lemma SanitizeAt(title: string, i: nat)
    requires i < |Sanitize(title)|
    ensures var f := RStrip(KeepAllowed(title));
      i < |f| && Sanitize(title)[i] == (if f[i] == ' ' then '_' else LowerChar(f[i]))
  {
  }

  /** A string of file-name characters passes every step of the sanitiser unchanged. */
  lemma FilenameCharsFixed(s: string)
    requires AllFilenameChars(s)
    ensures forall i :: 0 <= i < |s| ==> Kept(s[i])
    ensures RStrip(s) == s
    ensures ReplaceSpaces(s) == s && Lower(s) == s
  {
    assert s == [] || !IsSpace(s[|s| - 1]);
  }

  /** Sanitising an already sanitised title changes nothing. */
  lemma SanitizeIdempotent(title: string)
    ensures Sanitize(Sanitize(title)) == Sanitize(title)
  {
    var s := Sanitize(title);
    FilenameCharsFixed(s);
    KeepAllowedIdentity(s);
  }

  /** A string of spaces strips to nothing. */
  lemma RStripSpaces(k: string)
    requires forall j :: 0 <= j < |k| ==> k[j] == ' '
    ensures RStrip(k) == []
  {
  }

  /** If every kept character of the title is a space, the filter keeps spaces only. */
  lemma KeptSpacesOnly(title: string)
    requires forall i :: 0 <= i < |title| ==> !Kept(title[i]) || title[i] == ' '
    ensures forall j :: 0 <= j < |KeepAllowed(title)| ==> KeepAllowed(title)[j] == ' '
  {
    var k := KeepAllowed(title);
    forall j | 0 <= j < |k| ensures k[j] == ' ' {
      KeepAllowedCounts(title, k[j]);
      assert k[j] in multiset(k);
      var i :| 0 <= i < |title| && title[i] == k[j];
    }
  }

  /** A kept character other than a space survives into the filtered, stripped title. */
  lemma KeptSurvives(title: string, i: nat)
    requires i < |title| && Kept(title[i]) && title[i] != ' '
    ensures RStrip(KeepAllowed(title)) != []
  {
    var k := KeepAllowed(title);
    var c := title[i];
    KeepAllowedCounts(title, c);
    assert c in multiset(title);
    assert c in multiset(k);
    var j :| 0 <= j < |k| && k[j] == c;
    assert !IsSpace(c);
    assert !AllSpace(k[0..]) by { assert k[0..][j] == c; }
  }

  /** The sanitised title is empty exactly when every kept character of the title is a
      space (a title of punctuation and spaces only). */
  lemma SanitizeEmpty(title: string)
    ensures Sanitize(title) == [] <==> forall i :: 0 <= i < |title| ==> !Kept(title[i]) || title[i] == ' '
  {
    if forall i :: 0 <= i < |title| ==> !Kept(title[i]) || title[i] == ' ' {
      KeptSpacesOnly(title);
      RStripSpaces(KeepAllowed(title));
    } else {
      var i :| 0 <= i < |title| && Kept(title[i]) && title[i] != ' ';
      KeptSurvives(title, i);
    }
  }

  /** The filter works piece by piece. */
  lemma {:induction false} KeepAllowedAppend(a: string, b: string)
    ensures KeepAllowed(a + b) == KeepAllowed(a) + KeepAllowed(b)
    decreases |a|
  {
    if a == [] {
      assert a + b == b;
    } else {
      KeepAllowedAppend(a[1..], b);
      assert (a + b)[0] == a[0] && (a + b)[1..] == a[1..] + b;
    }
  }

  /** A run of kept characters followed by one dropped character filters to the run. */
  lemma KeepRun(t: string, c: char)
    requires forall i :: 0 <= i < |t| ==> Kept(t[i])
    requires !Kept(c)
    ensures KeepAllowed(t + [c]) == t
  {
    KeepAllowedIdentity(t);
    KeepAllowedAppend(t, [c]);
    assert KeepAllowed([c]) == [];
  }

  /** Three runs of kept characters, each followed by one dropped character. */
  lemma KeepAllowedRuns(t1: string, c1: char, t2: string, c2: char, t3: string, c3: char)
    requires forall i :: 0 <= i < |t1| ==> Kept(t1[i])
    requires forall i :: 0 <= i < |t2| ==> Kept(t2[i])
    requires forall i :: 0 <= i < |t3| ==> Kept(t3[i])
    requires !Kept(c1) && !Kept(c2) && !Kept(c3)
    ensures KeepAllowed(t1 + [c1] + t2 + [c2] + t3 + [c3]) == t1 + t2 + t3
  {
    Assoc(t1 + [c1], t2, [c2]);
    Assoc((t1 + [c1]) + (t2 + [c2]), t3, [c3]);
    KeepRun(t1, c1);
    KeepRun(t2, c2);
    KeepRun(t3, c3);
    KeepAllowedAppend((t1 + [c1]) + (t2 + [c2]), t3 + [c3]);
    KeepAllowedAppend(t1 + [c1], t2 + [c2]);
  }

  lemma ExamplePieces()
    ensures "Test: Time? Compute!" == "Test" + [':'] + " Time" + ['?'] + " Compute" + ['!']
    ensures "Test" + " Time" + " Compute" == "Test Time Compute"
  {
  }

  lemma ExampleFilter()
    ensures KeepAllowed("Test: Time? Compute!") == "Test Time Compute"
  {
    ExamplePieces();
    KeepAllowedRuns("Test", ':', " Time", '?', " Compute", '!');
  }

  lemma ExampleStrip()
    ensures RStrip("Test Time Compute") == "Test Time Compute"
  {
  }

  lemma ExampleCase()
    ensures Lower(ReplaceSpaces("Test Time Compute")) == "test_time_compute"
  {
  }

  /** A title with punctuation, spaces and capitals. */
  lemma SanitizeExample()
    ensures Sanitize("Test: Time? Compute!") == "test_time_compute"
  {
    ExampleFilter();
    ExampleStrip();
    ExampleCase();
  }
}
