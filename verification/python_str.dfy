/** The parts of Python's `str` that the screenshot tool relies on, on `string`
    (`seq<char>`): `isspace`, `strip`, `startswith`, `replace`, `split` on a
    one-character separator, `join` (as the partner of `split`) and `str(n)`
    for a natural number. */
module PyStr {

  /** `str.isspace()` of one character: the ASCII controls HT..CR and FS..US,
      the space, and the Unicode spaces and separators CPython counts as
      whitespace. */
  predicate IsSpace(c: char) {
    ('\t' <= c <= '\r') || ('\U{1C}' <= c <= ' ') || c == '\U{85}' || c == '\U{A0}'
    || c == '\U{1680}' || ('\U{2000}' <= c <= '\U{200A}') || c == '\U{2028}'
    || c == '\U{2029}' || c == '\U{202F}' || c == '\U{205F}' || c == '\U{3000}'
  }

  /** Neither the first nor the last character is whitespace. */
  predicate IsStripped(s: string) {
    s == [] || (!IsSpace(s[0]) && !IsSpace(s[|s| - 1]))
  }

  /** Every character of `s` from index `a` up to `b` is whitespace. */
  predicate SpaceRange(s: string, a: nat, b: nat)
    requires a <= b <= |s|
  {
    forall k :: a <= k < b ==> IsSpace(s[k])
  }

  /** `s` is `r` with whitespace added on both sides. */
  ghost predicate PaddedBy(s: string, r: string) {
    exists i, j :: 0 <= i <= j <= |s| && s[i..j] == r && SpaceRange(s, 0, i) && SpaceRange(s, j, |s|)
  }

  /** `s.rstrip()`: drops the trailing whitespace, and only that. */
  function TrimEnd(s: string): (r: string)
    ensures |r| <= |s| && r == s[..|r|]
    ensures SpaceRange(s, |r|, |s|)
    ensures r == [] || !IsSpace(r[|r| - 1])
    decreases |s|
  {
    if s != [] && IsSpace(s[|s| - 1]) then TrimEnd(s[..|s| - 1]) else s
  }

  /** `s.strip()`: drops the leading whitespace, then the trailing whitespace.
      What is left has no whitespace at either end. */
  function Strip(s: string): (r: string)
    ensures IsStripped(r)
    decreases |s|
  {
    if s != [] && IsSpace(s[0]) then Strip(s[1..]) else TrimEnd(s)
  }

  lemma PaddedAt(s: string, r: string, i: nat, j: nat)
    requires i <= j <= |s| && s[i..j] == r && SpaceRange(s, 0, i) && SpaceRange(s, j, |s|)
    ensures PaddedBy(s, r)
  {
  }

  /** A core padded inside `s[1..]` is padded inside `s` when `s[0]` is
      whitespace. */
  lemma PaddedAfterSpace(s: string, r: string, i: nat, j: nat)
    requires s != [] && IsSpace(s[0])
    requires i <= j <= |s| - 1 && s[1..][i..j] == r
    requires SpaceRange(s[1..], 0, i) && SpaceRange(s[1..], j, |s| - 1)
    ensures PaddedBy(s, r)
  {
    var t := s[1..];
    assert s[i + 1..j + 1] == r;
    forall k | 0 < k < i + 1 ensures IsSpace(s[k]) {
      assert s[k] == t[k - 1];
    }
    forall k | j + 1 <= k < |s| ensures IsSpace(s[k]) {
      assert s[k] == t[k - 1];
    }
    PaddedAt(s, r, i + 1, j + 1);
  }

  /** `strip()` removes only whitespace, and only at the ends: the input is
      its result padded with whitespace on both sides. */
  lemma {:induction false} StripPads(s: string)
    ensures PaddedBy(s, Strip(s))
    decreases |s|
  {
    var r := Strip(s);
    if s != [] && IsSpace(s[0]) {
      var t := s[1..];
      StripPads(t);
      var i, j :| 0 <= i <= j <= |t| && t[i..j] == r && SpaceRange(t, 0, i) && SpaceRange(t, j, |t|);
      PaddedAfterSpace(s, r, i, j);
    } else {
      assert s[0..|r|] == r;
      PaddedAt(s, r, 0, |r|);
    }
  }

  /** The position of the first non-space character is unique. */
  lemma FirstNonSpace(s: string, i: nat, i': nat)
    requires i < |s| && i' < |s|
    requires SpaceRange(s, 0, i) && !IsSpace(s[i])
    requires SpaceRange(s, 0, i') && !IsSpace(s[i'])
    ensures i == i'
  {
  }

  /** The position after the last non-space character is unique. */
  lemma LastNonSpace(s: string, j: nat, j': nat)
    requires 0 < j <= |s| && 0 < j' <= |s|
    requires SpaceRange(s, j, |s|) && !IsSpace(s[j - 1])
    requires SpaceRange(s, j', |s|) && !IsSpace(s[j' - 1])
    ensures j == j'
  {
  }

  /** A string padded into whitespace-only `s` is empty. */
  lemma PaddedInSpaces(s: string, r: string, i: nat, j: nat)
    requires 0 <= i <= j <= |s| && s[i..j] == r && SpaceRange(s, 0, i) && SpaceRange(s, j, |s|)
    requires IsStripped(r) && r != []
    ensures !SpaceRange(s, 0, |s|)
  {
    assert s[i] == r[0];
  }

  /** Two stripped cores of the same string are the same. */
  lemma CoreUnique(s: string, r: string, i: nat, j: nat, q: string, i': nat, j': nat)
    requires i <= j <= |s| && s[i..j] == r && SpaceRange(s, 0, i) && SpaceRange(s, j, |s|)
    requires i' <= j' <= |s| && s[i'..j'] == q && SpaceRange(s, 0, i') && SpaceRange(s, j', |s|)
    requires IsStripped(r) && IsStripped(q)
    ensures r == q
  {
    if r == [] || q == [] {
      if r != [] {
        PaddedInSpaces(s, r, i, j);
      } else if q != [] {
        PaddedInSpaces(s, q, i', j');
      }
    } else {
      assert s[i] == r[0] && s[i'] == q[0];
      assert s[j - 1] == r[|r| - 1] && s[j' - 1] == q[|q| - 1];
      FirstNonSpace(s, i, i');
      LastNonSpace(s, j, j');
    }
  }

  /** The two ensures of `Strip` pin its result down: the stripped core of `s`
      that `s` pads with whitespace is unique. */
  lemma StripCharacterized(s: string, r: string)
    requires IsStripped(r) && PaddedBy(s, r)
    ensures r == Strip(s)
  {
    var i, j :| 0 <= i <= j <= |s| && s[i..j] == r && SpaceRange(s, 0, i) && SpaceRange(s, j, |s|);
    var q := Strip(s);
    StripPads(s);
    var i', j' :| 0 <= i' <= j' <= |s| && s[i'..j'] == q && SpaceRange(s, 0, i') && SpaceRange(s, j', |s|);
    CoreUnique(s, r, i, j, q, i', j');
  }

  /** Stripping what is already stripped changes nothing. */
  lemma StripStripped(s: string)
    requires IsStripped(s)
    ensures Strip(s) == s
  {
  }

  /** A stripped line followed by its line terminator strips back to the
      line (the empty line included). */
  lemma StripTerminated(s: string)
    requires IsStripped(s)
    ensures Strip(s + "\n") == s
  {
    var t := s + "\n";
    if s == [] {
      assert t[1..] == [];
    } else {
      assert t[0] == s[0];
      assert t[..|t| - 1] == s;
    }
  }

  /** `s.startswith(p)`. */
  predicate StartsWith(s: string, p: string) {
    |p| <= |s| && s[..|p|] == p
  }

  /** `s.replace(pat, rep)` for a non-empty `pat`: occurrences are found left
      to right and do not overlap; each is replaced and scanning resumes after
      it. Every character of the result comes from `s` or from `rep`. */
  function Replace(s: string, pat: string, rep: string): (r: string)
    requires pat != []
    ensures forall c :: c in r ==> c in s || c in rep
    decreases |s|
  {
    if s == [] then []
    else if StartsWith(s, pat) then
      var tail := Replace(s[|pat|..], pat, rep);
      assert forall c :: c in s[|pat|..] ==> c in s;
      rep + tail
    else
      var tail := Replace(s[1..], pat, rep);
      assert forall c :: c in s[1..] ==> c in s;
      [s[0]] + tail
  }

  /** A pattern holding a character that `s` lacks cannot occur in `s`, so the
      replacement leaves `s` as it is. */
  lemma {:induction false} ReplaceAbsent(s: string, pat: string, rep: string, c: char)
    requires c in pat && c !in s
    ensures Replace(s, pat, rep) == s
    decreases |s|
  {
    if s != [] {
      ReplaceAbsent(s[1..], pat, rep, c);
    }
  }

  /** `pat` occurs in `s` starting at index `k`. */
  predicate OccursAt(s: string, pat: string, k: nat)
  {
    k + |pat| <= |s| && s[k..k + |pat|] == pat
  }

  /** A pattern that occurs nowhere in `s` is not replaced. */
  lemma {:induction false} ReplaceNoOccurrence(s: string, pat: string, rep: string)
    requires pat != []
    requires forall k: nat :: !OccursAt(s, pat, k)
    ensures Replace(s, pat, rep) == s
    decreases |s|
  {
    if s != [] {
      assert !OccursAt(s, pat, 0);
      forall k: nat
        ensures !OccursAt(s[1..], pat, k)
      {
        assert !OccursAt(s, pat, k + 1);
        if k + |pat| <= |s[1..]| {
          assert s[1..][k..k + |pat|] == s[k + 1..k + 1 + |pat|];
        }
      }
      ReplaceNoOccurrence(s[1..], pat, rep);
    }
  }

  /** An occurrence at the very start is replaced, and the scan resumes right
      after it. */
  lemma ReplaceAtStart(pat: string, t: string, rep: string)
    requires pat != []
    ensures Replace(pat + t, pat, rep) == rep + Replace(t, pat, rep)
  {
    assert StartsWith(pat + t, pat);
    assert (pat + t)[|pat|..] == t;
  }

  /** Where the pattern does not occur at the start, the scan keeps the
      first character and moves on. */
  lemma ReplaceSkip(s: string, pat: string, rep: string)
    requires pat != [] && s != [] && !OccursAt(s, pat, 0)
    ensures Replace(s, pat, rep) == [s[0]] + Replace(s[1..], pat, rep)
  {
    if |pat| <= |s| {
      assert s[..|pat|] == s[0..|pat|];
    }
  }

  /** Occurrences in the tail are the occurrences in `s` shifted by one. */
  lemma OccursAtTail(s: string, pat: string, k: nat)
    requires s != []
    ensures OccursAt(s[1..], pat, k) <==> OccursAt(s, pat, k + 1)
  {
    if k + |pat| <= |s| - 1 {
      assert s[1..][k..k + |pat|] == s[k + 1..k + 1 + |pat|];
    }
  }

  /** An occurrence at the start is replaced, and the scan resumes right
      after it. */
  lemma ReplaceAtZero(s: string, pat: string, rep: string)
    requires pat != [] && OccursAt(s, pat, 0)
    ensures Replace(s, pat, rep) == rep + Replace(s[|pat|..], pat, rep)
  {
    assert s[..|pat|] == s[0..|pat|];
  }

  /** A prefix in which no occurrence of the pattern starts is kept as it is,
      and the scan goes on after it. */
  lemma {:induction false} ReplaceKeepsPrefix(s: string, pat: string, rep: string, i: nat)
    requires pat != [] && i <= |s|
    requires forall k: nat :: k < i ==> !OccursAt(s, pat, k)
    ensures Replace(s, pat, rep) == s[..i] + Replace(s[i..], pat, rep)
    decreases i
  {
    var r := Replace(s[i..], pat, rep);
    if i == 0 {
      assert s[..0] + s[0..] == s;
    } else {
      var t := s[1..];
      forall k: nat | k < i - 1
        ensures !OccursAt(t, pat, k)
      {
        OccursAtTail(s, pat, k);
      }
      calc {
        Replace(s, pat, rep);
      == { assert !OccursAt(s, pat, 0); ReplaceSkip(s, pat, rep); }
        [s[0]] + Replace(t, pat, rep);
      == { ReplaceKeepsPrefix(t, pat, rep, i - 1); assert t[i - 1..] == s[i..]; }
        [s[0]] + (t[..i - 1] + r);
      == { ConsConcat(s[0], t[..i - 1], r); }
        [s[0]] + t[..i - 1] + r;
      == { assert [s[0]] + t[..i - 1] == s[..i]; }
        s[..i] + r;
      }
    }
  }

  /** The scan at the first occurrence of the pattern: everything before it
      is kept, the occurrence is replaced, and the scan resumes right after
      it. With `ReplaceNoOccurrence` this describes `replace` fully. */
  lemma ReplaceAtFirst(s: string, pat: string, rep: string, i: nat)
    requires pat != [] && OccursAt(s, pat, i)
    requires forall k: nat :: k < i ==> !OccursAt(s, pat, k)
    ensures Replace(s, pat, rep) == s[..i] + rep + Replace(s[i + |pat|..], pat, rep)
  {
    var y := s[i..];
    var r := Replace(s[i + |pat|..], pat, rep);
    calc {
      Replace(s, pat, rep);
    == { ReplaceKeepsPrefix(s, pat, rep, i); }
      s[..i] + Replace(y, pat, rep);
    == { assert y[0..|pat|] == s[i..i + |pat|];
         assert y[|pat|..] == s[i + |pat|..];
         ReplaceAtZero(y, pat, rep); }
      s[..i] + (rep + r);
    == { assert s[..i] + (rep + r) == s[..i] + rep + r; }
      s[..i] + rep + r;
    }
  }

  /** Putting a character in front of a concatenation. */
  lemma ConsConcat(c: char, p: string, q: string)
    ensures [c] + (p + q) == [c] + p + q
  {
  }

  /** In `a + pat + b` no occurrence of `pat` starts inside `a` when `pat`
      occurs nowhere in `a` and its first character does not recur in it: an
      occurrence reaching past `a` would have to match that first character
      at a later position of `pat`. */
  lemma NoOccurrenceBefore(a: string, pat: string, b: string)
    requires pat != []
    requires forall j :: 1 <= j < |pat| ==> pat[j] != pat[0]
    requires forall k: nat :: !OccursAt(a, pat, k)
    ensures forall k: nat :: k < |a| ==> !OccursAt(a + pat + b, pat, k)
  {
    var u := a + pat + b;
    forall k: nat | k < |a|
      ensures !OccursAt(u, pat, k)
    {
      if k + |pat| <= |u| {
        if k + |pat| <= |a| {
          assert !OccursAt(a, pat, k);
          assert u[k..k + |pat|] == a[k..k + |pat|];
        } else {
          assert u[k..k + |pat|][|a| - k] == u[|a|] == pat[0];
        }
      }
    }
  }

  /** A single occurrence between two parts in which the pattern does not
      occur is replaced, and the parts are kept (when the pattern's first
      character does not recur in it, so no occurrence can straddle `a`). */
  lemma ReplaceInner(a: string, pat: string, b: string, rep: string)
    requires pat != []
    requires forall j :: 1 <= j < |pat| ==> pat[j] != pat[0]
    requires forall k: nat :: !OccursAt(a, pat, k)
    requires forall k: nat :: !OccursAt(b, pat, k)
    ensures Replace(a + pat + b, pat, rep) == a + rep + b
  {
    var u := a + pat + b;
    NoOccurrenceBefore(a, pat, b);
    assert u[|a|..|a| + |pat|] == pat;
    assert u[..|a|] == a;
    assert u[|a| + |pat|..] == b;
    ReplaceAtFirst(u, pat, rep, |a|);
    ReplaceNoOccurrence(b, pat, rep);
  }

  /** Replacing a pattern by itself is the identity. */
  lemma {:induction false} ReplaceSelf(s: string, pat: string)
    requires pat != []
    ensures Replace(s, pat, pat) == s
    decreases |s|
  {
    if s != [] {
      if StartsWith(s, pat) {
        ReplaceSelf(s[|pat|..], pat);
        assert s == pat + s[|pat|..];
      } else {
        ReplaceSelf(s[1..], pat);
        assert s == [s[0]] + s[1..];
      }
    }
  }

  /** Replacing one character by another is a position-wise substitution. */
  lemma {:induction false} ReplaceChar(s: string, c: char, d: char)
    ensures |Replace(s, [c], [d])| == |s|
    ensures forall k :: 0 <= k < |s| ==>
      Replace(s, [c], [d])[k] == (if s[k] == c then d else s[k])
    decreases |s|
  {
    if s != [] {
      ReplaceChar(s[1..], c, d);
      assert StartsWith(s, [c]) <==> s[0] == c;
      assert |[c]| == 1;
    }
  }

  /** `s.split(sep)` for a one-character separator: the pieces between the
      separators, in order; at least one piece, and none holds `sep`. */
  function Split(s: string, sep: char): (r: seq<string>)
    ensures |r| >= 1
    ensures forall k :: 0 <= k < |r| ==> sep !in r[k]
    decreases |s|
  {
    if s == [] then [[]]
    else if s[0] == sep then [[]] + Split(s[1..], sep)
    else
      var rest := Split(s[1..], sep);
      assert forall k :: 1 <= k < |rest| ==> rest[1..][k - 1] == rest[k];
      [[s[0]] + rest[0]] + rest[1..]
  }

  /** `sep.join(parts)`. */
  function Join(parts: seq<string>, sep: char): string
    decreases |parts|
  {
    if |parts| == 0 then []
    else if |parts| == 1 then parts[0]
    else parts[0] + [sep] + Join(parts[1..], sep)
  }

  /** Joining the pieces of a split gives back the original string. */
  lemma {:induction false} JoinSplit(s: string, sep: char)
    ensures Join(Split(s, sep), sep) == s
    decreases |s|
  {
    if s != [] {
      JoinSplit(s[1..], sep);
      var rest := Split(s[1..], sep);
      if s[0] != sep && |rest| > 1 {
        assert rest == [rest[0]] + rest[1..];
        assert Join(rest, sep) == rest[0] + [sep] + Join(rest[1..], sep);
        assert ([[s[0]] + rest[0]] + rest[1..])[1..] == rest[1..];
      }
    }
  }

  /** A string without the separator splits into itself alone. */
  lemma {:induction false} SplitNoSep(a: string, sep: char)
    requires sep !in a
    ensures Split(a, sep) == [a]
    decreases |a|
  {
    if a != [] {
      SplitNoSep(a[1..], sep);
      assert [a[0]] + a[1..] == a;
    }
  }

  /** Splitting stops at the first separator. */
  lemma {:induction false} SplitAtSep(a: string, b: string, sep: char)
    requires sep !in a
    ensures Split(a + [sep] + b, sep) == [a] + Split(b, sep)
    decreases |a|
  {
    var s := a + [sep] + b;
    if a == [] {
      assert s[1..] == b;
    } else {
      assert s[1..] == a[1..] + [sep] + b;
      SplitAtSep(a[1..], b, sep);
      assert [a[0]] + a[1..] == a;
    }
  }

  /** Splitting the join of separator-free pieces gives the pieces back. */
  lemma {:induction false} SplitJoin(parts: seq<string>, sep: char)
    requires |parts| >= 1
    requires forall k :: 0 <= k < |parts| ==> sep !in parts[k]
    ensures Split(Join(parts, sep), sep) == parts
    decreases |parts|
  {
    if |parts| == 1 {
      SplitNoSep(parts[0], sep);
    } else {
      SplitJoin(parts[1..], sep);
      SplitAtSep(parts[0], Join(parts[1..], sep), sep);
      assert [parts[0]] + parts[1..] == parts;
    }
  }

  /** The character of a decimal digit. */
  function DigitChar(d: nat): (c: char)
    requires d < 10
    ensures '0' <= c <= '9'
  {
    (48 + d) as char
  }

  /** The value of a decimal digit character; any other character reads as 0. */
  function DigitValue(c: char): nat {
    if '0' <= c <= '9' then (c as int) - 48 else 0
  }

  /** `str(n)` for a natural number: its decimal digits, most significant
      first, without leading zeros. */
  function Decimal(n: nat): (s: string)
    ensures s != []
    ensures forall k :: 0 <= k < |s| ==> '0' <= s[k] <= '9'
    ensures n > 0 ==> s[0] != '0'
  {
    if n < 10 then [DigitChar(n)] else Decimal(n / 10) + [DigitChar(n % 10)]
  }

  /** `int(s)` on a string of decimal digits. */
  function ParseDecimal(s: string): nat
    decreases |s|
  {
    if s == [] then 0 else 10 * ParseDecimal(s[..|s| - 1]) + DigitValue(s[|s| - 1])
  }

  /** Reading the decimal form of `n` gives `n` back. */
  lemma {:induction false} ParseDecimalOfDecimal(n: nat)
    ensures ParseDecimal(Decimal(n)) == n
  {
    if n >= 10 {
      var s := Decimal(n);
      assert s[..|s| - 1] == Decimal(n / 10);
      ParseDecimalOfDecimal(n / 10);
    }
  }

  /** Distinct numbers have distinct decimal forms. */
  lemma DecimalInjective(m: nat, n: nat)
    requires Decimal(m) == Decimal(n)
    ensures m == n
  {
    ParseDecimalOfDecimal(m);
    ParseDecimalOfDecimal(n);
  }
}
