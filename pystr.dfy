/**
  The handful of Python `str` operations the book generator relies on: `isspace`, `rstrip`
  and `strip` with no argument, `split` and `join` with an explicit
  separator, and `str()` of a natural number. Each is a pure function with a contract that
  characterises its result; the round trips between `split`/`join` and between `str`/`int`
  are proved as lemmas.
 */
module PyStr {
  import opened Wrappers

  // ---------------------------------------------------------------------------------------
  // Whitespace, rstrip, strip
  // ---------------------------------------------------------------------------------------

  /** `c.isspace()`: the controls TAB, LF, VT, FF, CR (9-13), the separator controls FS, GS,
      RS, US (28-31), space, NEL (0x85), no-break space (0xA0), the Ogham space mark (0x1680),
      the spaces 0x2000-0x200A, the line and paragraph separators (0x2028, 0x2029), the narrow
      no-break space (0x202F), the medium mathematical space (0x205F) and the ideographic
      space (0x3000). */
  predicate IsSpace(c: char) {
    var n := c as int;
    (9 <= n <= 13) || (28 <= n <= 32) || n == 0x85 || n == 0xA0 || n == 0x1680 ||
    (0x2000 <= n <= 0x200A) || n == 0x2028 || n == 0x2029 || n == 0x202F || n == 0x205F ||
    n == 0x3000
  }

  predicate AllSpace(s: string) {
    forall i :: 0 <= i < |s| ==> IsSpace(s[i])
  }

  /** `s.rstrip()`: `s` without its trailing run of whitespace. */
  function RStrip(s: string): (r: string)
    ensures |r| <= |s| && r == s[..|r|]
    ensures AllSpace(s[|r|..])
    ensures r == [] || !IsSpace(r[|r| - 1])
    decreases |s|
  {
    if s != [] && IsSpace(s[|s| - 1]) then
      var r := RStrip(s[..|s| - 1]);
      assert s[|r|..] == s[..|s| - 1][|r|..] + [s[|s| - 1]];
      r
    else
      s
  }

  /** `s.lstrip()`: `s` without its leading run of whitespace. */
  function LStrip(s: string): (r: string)
    ensures |r| <= |s| && r == s[|s| - |r|..]
    ensures AllSpace(s[..|s| - |r|])
    ensures r == [] || !IsSpace(r[0])
    decreases |s|
  {
    if s != [] && IsSpace(s[0]) then
      var r := LStrip(s[1..]);
      assert s[..|s| - |r|] == [s[0]] + s[1..][..|s| - 1 - |r|];
      r
    else
      s
  }

  /** `s.strip()`: the slice of `s` left between its leading and its trailing run of
      whitespace (`j` is where the trailing run starts). */
  function Strip(s: string): (r: string)
    ensures var j := |RStrip(s)|;
      |r| <= j && r == s[j - |r|..j] && AllSpace(s[..j - |r|]) && AllSpace(s[j..])
    ensures r == [] || (!IsSpace(r[0]) && !IsSpace(r[|r| - 1]))
  {
    var t := RStrip(s);
    var r := LStrip(t);
    assert s[..|t| - |r|] == t[..|t| - |r|];
    r
  }

  /** Stripping is idempotent: a stripped string has nothing left to strip. */
  lemma {:induction false} StripIdempotent(s: string)
    ensures Strip(Strip(s)) == Strip(s)
  {
    var r := Strip(s);
    assert RStrip(r) == r;
    assert LStrip(r) == r;
  }

  /** `strip` leaves a string unchanged exactly when it neither starts nor ends with
      whitespace. */
  lemma StripUnchanged(s: string)
    ensures Strip(s) == s <==> (s == [] || (!IsSpace(s[0]) && !IsSpace(s[|s| - 1])))
  {
    if s != [] && !IsSpace(s[0]) && !IsSpace(s[|s| - 1]) {
      assert RStrip(s) == s;
      assert LStrip(s) == s;
    }
  }

  // ---------------------------------------------------------------------------------------
  // find, split, join
  // ---------------------------------------------------------------------------------------

  /** `sep` occurs in `s` starting at position `k`. */
  predicate OccursAt(s: string, sep: string, k: nat) {
    k + |sep| <= |s| && s[k..k + |sep|] == sep
  }

  lemma OccursShift(s: string, sep: string)
    requires s != []
    ensures forall k: nat :: OccursAt(s[1..], sep, k) ==> OccursAt(s, sep, k + 1)
    ensures forall k: nat :: 0 < k && OccursAt(s, sep, k) ==> OccursAt(s[1..], sep, k - 1)
  {
    forall k: nat ensures OccursAt(s[1..], sep, k) <==> OccursAt(s, sep, k + 1) {
      if k + 1 + |sep| <= |s| {
        assert s[1..][k..k + |sep|] == s[k + 1..k + 1 + |sep|];
      }
    }
    forall k: nat | 0 < k ensures OccursAt(s, sep, k) <==> OccursAt(s[1..], sep, k - 1) {
      assert OccursAt(s[1..], sep, k - 1) <==> OccursAt(s, sep, k - 1 + 1);
    }
  }

  /** `s.find(sep)`: the leftmost position at which `sep` occurs in `s`, if any. */
  function Find(s: string, sep: string): (r: Option<nat>)
    requires sep != []
    ensures r.Some? ==> OccursAt(s, sep, r.value)
    ensures forall k: nat :: (r.None? || k < r.value) ==> !OccursAt(s, sep, k)
    decreases |s|
  {
    if |s| < |sep| then None
    else if s[..|sep|] == sep then Some(0)
    else
      OccursShift(s, sep);
      assert !OccursAt(s, sep, 0);
      match Find(s[1..], sep)
      case None => None
      case Some(k) => Some(k + 1)
  }

  /** The contract of `Find` determines its result. */
  lemma FindUnique(s: string, sep: string, r: Option<nat>)
    requires sep != []
    requires r.Some? ==> OccursAt(s, sep, r.value)
    requires forall k: nat :: (r.None? || k < r.value) ==> !OccursAt(s, sep, k)
    ensures Find(s, sep) == r
  {
  }

  /** An occurrence that ends within a prefix of `s` is an occurrence in that prefix. */
  lemma OccursInPrefix(s: string, sep: string, m: nat)
    requires m <= |s|
    ensures forall k: nat :: k + |sep| <= m ==> (OccursAt(s[..m], sep, k) <==> OccursAt(s, sep, k))
  {
    forall k: nat | k + |sep| <= m
      ensures OccursAt(s[..m], sep, k) <==> OccursAt(s, sep, k)
    {
      assert s[..m][k..k + |sep|] == s[k..k + |sep|];
    }
  }

  /** `s.split(sep)` for a non-empty separator (Python rejects an empty one): the pieces
      between the non-overlapping occurrences of `sep`, found left to right. The result is
      never empty; a string without `sep` splits into itself alone. */
  function Split(s: string, sep: string): (parts: seq<string>)
    requires sep != []
    ensures |parts| >= 1
    decreases |s|
  {
    match Find(s, sep)
    case None => [s]
    case Some(k) => [s[..k]] + Split(s[k + |sep|..], sep)
  }

  /** `sep.join(parts)`. */
  function Join(parts: seq<string>, sep: string): string {
    if |parts| == 0 then ""
    else if |parts| == 1 then parts[0]
    else parts[0] + sep + Join(parts[1..], sep)
  }

  /** Joining the pieces of a split with the same separator gives back the original text. */
  lemma {:induction false} JoinSplit(s: string, sep: string)
    requires sep != []
    ensures Join(Split(s, sep), sep) == s
    decreases |s|
  {
    match Find(s, sep)
    case None =>
    case Some(k) =>
      var rest := s[k + |sep|..];
      var tail := Split(rest, sep);
      assert Join(tail, sep) == rest by { JoinSplit(rest, sep); }
      assert Split(s, sep) == [s[..k]] + tail;
      assert Join([s[..k]] + tail, sep) == s[..k] + sep + rest by { JoinCons(s[..k], sep, tail); }
      assert s == s[..k] + sep + rest by { SliceAround(s, k, k + |sep|); }
  }

  lemma JoinCons(p: string, sep: string, tail: seq<string>)
    requires |tail| >= 1
    ensures Join([p] + tail, sep) == p + sep + Join(tail, sep)
  {
    assert ([p] + tail)[1..] == tail;
  }

  /** Concatenation regroups. */
  lemma Assoc<T>(x: seq<T>, y: seq<T>, z: seq<T>)
    ensures (x + y) + z == x + (y + z)
  {
  }

  /** A non-empty sequence is everything before its last element, then that element. */
  lemma Snoc<T>(s: seq<T>)
    requires s != []
    ensures s == s[..|s| - 1] + [s[|s| - 1]]
  {
  }

  lemma SliceAround(s: string, i: nat, j: nat)
    requires i <= j <= |s|
    ensures s == s[..i] + s[i..j] + s[j..]
  {
  }

  /** What `split` produces: a non-empty list in which every piece but the last is ended by
      the leftmost occurrence of `sep` from its start on, and the last piece holds none. */
  predicate SplitShaped(parts: seq<string>, sep: string)
    requires sep != []
  {
    |parts| >= 1 &&
    (forall i :: 0 <= i < |parts| - 1 ==> Find(parts[i] + sep, sep) == Some(|parts[i]|)) &&
    Find(parts[|parts| - 1], sep) == None
  }

  /** The piece before the first occurrence, followed by the separator, has its first
      occurrence at the same place. */
  lemma FindInPrefix(s: string, sep: string, k: nat)
    requires sep != [] && Find(s, sep) == Some(k)
    ensures Find(s[..k] + sep, sep) == Some(k)
  {
    var m := k + |sep|;
    assert s[..k] + sep == s[..m];
    OccursInPrefix(s, sep, m);
    FindUnique(s[..m], sep, Some(k));
  }

  /** Conversely, a piece whose first occurrence is at its end keeps it there whatever
      follows. */
  lemma FindInExtension(p: string, sep: string, t: string)
    requires sep != [] && Find(p + sep, sep) == Some(|p|)
    ensures Find(p + sep + t, sep) == Some(|p|)
  {
    var s := p + sep + t;
    var m := |p| + |sep|;
    assert s[..m] == p + sep;
    OccursInPrefix(s, sep, m);
    FindUnique(s, sep, Some(|p|));
  }

  /** Every result of `split` has that shape. */
  lemma {:induction false} SplitIsShaped(s: string, sep: string)
    requires sep != []
    ensures SplitShaped(Split(s, sep), sep)
    decreases |s|
  {
    match Find(s, sep)
    case None =>
    case Some(k) =>
      var rest := s[k + |sep|..];
      SplitIsShaped(rest, sep);
      var tail := Split(rest, sep);
      var parts := Split(s, sep);
      assert parts == [s[..k]] + tail;
      FindInPrefix(s, sep, k);
      forall i | 0 <= i < |parts| - 1
        ensures Find(parts[i] + sep, sep) == Some(|parts[i]|)
      {
        if i > 0 { assert parts[i] == tail[i - 1]; }
      }
      assert parts[|parts| - 1] == tail[|tail| - 1];
  }

  /** Dropping the first piece of a shaped list leaves a shaped list. */
  lemma ShapedTail(parts: seq<string>, sep: string)
    requires sep != [] && SplitShaped(parts, sep) && |parts| > 1
    ensures SplitShaped(parts[1..], sep)
  {
    var rest := parts[1..];
    forall i | 0 <= i < |rest| - 1
      ensures Find(rest[i] + sep, sep) == Some(|rest[i]|)
    {
      assert rest[i] == parts[i + 1];
    }
  }

  /** Conversely, splitting the join of such a list gives the list back: with
      `SplitIsShaped` and `JoinSplit`, `split` and `join` are inverse bijections between
      strings and lists of that shape. */
  lemma {:induction false} SplitJoin(parts: seq<string>, sep: string)
    requires sep != []
    requires SplitShaped(parts, sep)
    ensures Split(Join(parts, sep), sep) == parts
    decreases |parts|
  {
    if |parts| > 1 {
      var p := parts[0];
      var rest := parts[1..];
      ShapedTail(parts, sep);
      SplitJoin(rest, sep);
      assert Join(parts, sep) == p + sep + Join(rest, sep);
      SplitCons(p, sep, Join(rest, sep));
      assert parts == [p] + rest;
    }
  }

  /** A piece whose first occurrence is at its end splits off first. */
  lemma SplitCons(p: string, sep: string, t: string)
    requires sep != [] && Find(p + sep, sep) == Some(|p|)
    ensures Split(p + sep + t, sep) == [p] + Split(t, sep)
  {
    var s := p + sep + t;
    FindInExtension(p, sep, t);
    assert s[..|p|] == p;
    assert s[|p| + |sep|..] == t;
  }

  // ---------------------------------------------------------------------------------------
  // Decimal digits
  // ---------------------------------------------------------------------------------------

  predicate IsDigit(c: char) {
    '0' <= c <= '9'
  }

  predicate AllDigits(s: string) {
    forall i :: 0 <= i < |s| ==> IsDigit(s[i])
  }

  function DigitChar(d: nat): (c: char)
    requires d < 10
  {
    (48 + d) as char
  }

  function DigitValue(c: char): nat
    requires IsDigit(c)
  {
    c as int - 48
  }

  /** `str(n)` for a natural number: its decimal digits, with no leading zero. */
  function NatToString(n: nat): (s: string)
    ensures |s| >= 1 && AllDigits(s)
    ensures |s| > 1 ==> s[0] != '0'
    decreases n
  {
    if n < 10 then [DigitChar(n)] else NatToString(n / 10) + [DigitChar(n % 10)]
  }

  /** `int(s)` for a string of decimal digits (the empty string reads as 0). */
  function ParseNat(s: string): nat
    requires AllDigits(s)
  {
    if s == [] then 0 else 10 * ParseNat(s[..|s| - 1]) + DigitValue(s[|s| - 1])
  }

  /** Reading back the digits of `n` gives `n`. */
  lemma {:induction false} ParseNatToString(n: nat)
    ensures ParseNat(NatToString(n)) == n
    decreases n
  {
    if n >= 10 {
      ParseNatToString(n / 10);
      var s := NatToString(n);
      assert s[..|s| - 1] == NatToString(n / 10);
    }
  }

  function Pow10(w: nat): (p: nat)
    ensures p >= 1
  {
    if w == 0 then 1 else 10 * Pow10(w - 1)
  }

  /** A number below 10^w has at most w digits. */
  lemma {:induction false} NatToStringLength(n: nat, w: nat)
    requires 1 <= w && n < Pow10(w)
    ensures |NatToString(n)| <= w
    decreases n
  {
    if n >= 10 {
      assert w >= 2;
      NatToStringLength(n / 10, w - 1);
    }
  }

  function Zeros(k: nat): (z: string)
    ensures |z| == k && AllDigits(z)
  {
    seq(k, _ => '0')
  }

  /** Leading zeros do not change the value of a digit string. */
  lemma {:induction false} ParseNatLeadingZeros(k: nat, s: string)
    requires AllDigits(s)
    ensures ParseNat(Zeros(k) + s) == ParseNat(s)
    decreases |s|, k
  {
    if s == [] {
      assert Zeros(k) + s == Zeros(k);
      if k > 0 {
        assert Zeros(k)[..k - 1] == Zeros(k - 1);
        ParseNatLeadingZeros(k - 1, []);
        assert Zeros(k - 1) + [] == Zeros(k - 1);
      }
    } else {
      var t := Zeros(k) + s;
      assert t[..|t| - 1] == Zeros(k) + s[..|s| - 1];
      ParseNatLeadingZeros(k, s[..|s| - 1]);
    }
  }
}
