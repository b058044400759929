/**
 * String helpers with Python's meaning, restricted to ASCII: `str.lower`,
 * `str.strip`, `str.startswith`, `in`, `str.replace`, `str.join`,
 * `str.isdigit`, `str.title`, `url.split('/')[-1]`, decimal formatting of
 * a counter, and Python's lexicographic comparison of strings.
 */
module Text {

  // ---------------------------------------------------------------------
  // Characters
  // ---------------------------------------------------------------------

  /** Python's `str.isspace` on ASCII: space, \t \n \v \f \r and \x1c-\x1f. */
  predicate IsSpace(c: char) {
    c == ' ' || (9 <= c as int <= 13) || (28 <= c as int <= 31)
  }

  predicate IsUpper(c: char) { 'A' <= c <= 'Z' }
  predicate IsLower(c: char) { 'a' <= c <= 'z' }
  predicate IsLetter(c: char) { IsUpper(c) || IsLower(c) }
  predicate IsDigit(c: char) { '0' <= c <= '9' }

  function LowerChar(c: char): (r: char)
    ensures IsUpper(c) ==> IsLower(r)
    ensures !IsUpper(c) ==> r == c
  {
    if IsUpper(c) then (c as int + 32) as char else c
  }

  function UpperChar(c: char): (r: char)
    ensures IsLower(c) ==> IsUpper(r)
    ensures !IsLower(c) ==> r == c
  {
    if IsLower(c) then (c as int - 32) as char else c
  }

  /** `s.lower()` on ASCII letters. */
  function Lower(s: string): (r: string)
    ensures |r| == |s|
    ensures forall i :: 0 <= i < |s| ==> r[i] == LowerChar(s[i])
  {
    seq(|s|, i requires 0 <= i < |s| => LowerChar(s[i]))
  }

  // ---------------------------------------------------------------------
  // Strip
  // ---------------------------------------------------------------------

  function TrimLeft(s: string): (r: string)
    ensures |r| <= |s| && r == s[|s| - |r|..]
    ensures r == [] || !IsSpace(r[0])
    ensures forall i :: 0 <= i < |s| - |r| ==> IsSpace(s[i])
  {
    if s != [] && IsSpace(s[0]) then TrimLeft(s[1..]) else s
  }

  function TrimRight(s: string): (r: string)
    ensures |r| <= |s| && r == s[..|r|]
    ensures r == [] || !IsSpace(r[|r| - 1])
    ensures forall i :: |r| <= i < |s| ==> IsSpace(s[i])
  {
    if s != [] && IsSpace(s[|s| - 1]) then TrimRight(s[..|s| - 1]) else s
  }

  /** `s.strip()`: drop whitespace at both ends. */
  function Strip(s: string): string {
    TrimRight(TrimLeft(s))
  }

  /** A string strips to nothing exactly when all its characters are whitespace. */
  lemma StripEmptyIff(s: string)
    ensures Strip(s) == [] <==> forall i :: 0 <= i < |s| ==> IsSpace(s[i])
  {
    var l := TrimLeft(s);
    if Strip(s) == [] {
      forall i | 0 <= i < |s| ensures IsSpace(s[i]) {
        if i >= |s| - |l| {
          assert s[i] == l[i - (|s| - |l|)];
        }
      }
    } else {
      var r := Strip(s);
      assert r == l[..|r|];
      assert !IsSpace(r[0]);
      assert s[|s| - |l|] == l[0] == r[0];
    }
  }

  // ---------------------------------------------------------------------
  // Prefixes, suffixes, substrings
  // ---------------------------------------------------------------------

  predicate StartsWith(s: string, p: string) {
    |p| <= |s| && s[..|p|] == p
  }

  predicate EndsWith(s: string, p: string) {
    |p| <= |s| && s[|s| - |p|..] == p
  }

  /** p occurs in s starting at index i. */
  predicate OccursAt(s: string, p: string, i: nat) {
    i + |p| <= |s| && s[i..i + |p|] == p
  }

  /** `p in s` for strings: p occurs somewhere in s. */
  predicate Contains(s: string, p: string) {
    exists i: nat | i <= |s| :: OccursAt(s, p, i)
  }

  /** `s.replace(a, b)` for single characters. */
  function ReplaceChar(s: string, a: char, b: char): (r: string)
    ensures |r| == |s|
    ensures forall i :: 0 <= i < |s| ==> r[i] == if s[i] == a then b else s[i]
  {
    seq(|s|, i requires 0 <= i < |s| => if s[i] == a then b else s[i])
  }

  /** `s.replace(pat, '')`: delete the non-overlapping occurrences of pat, scanning left to right. */
  function RemoveAll(s: string, pat: string): (r: string)
    requires pat != []
    ensures |r| <= |s|
    decreases |s|
  {
    if |s| < |pat| then s
    else if s[..|pat|] == pat then RemoveAll(s[|pat|..], pat)
    else [s[0]] + RemoveAll(s[1..], pat)
  }

  /** A pattern absent from s is absent from its tail. */
  lemma NotContainsTail(s: string, p: string)
    requires s != [] && !Contains(s, p)
    ensures !Contains(s[1..], p)
  {
    forall i: nat | i <= |s[1..]| ensures !OccursAt(s[1..], p, i) {
      if i + |p| <= |s[1..]| {
        assert s[1..][i..i + |p|] == s[i + 1..i + 1 + |p|];
        assert !OccursAt(s, p, i + 1);
      }
    }
  }

  /** Removing an occurrence-free pattern changes nothing. */
  lemma {:induction false} RemoveAllAbsent(s: string, pat: string)
    requires pat != [] && !Contains(s, pat)
    ensures RemoveAll(s, pat) == s
    decreases |s|
  {
    if |s| >= |pat| {
      assert !OccursAt(s, pat, 0);
      NotContainsTail(s, pat);
      RemoveAllAbsent(s[1..], pat);
    }
  }

  /**
   * Removing every occurrence of a pattern from s followed by the pattern
   * gives s back, when s holds no occurrence and the pattern's first
   * character appears nowhere else in it (as for ".html").
   */
  lemma {:induction false} RemoveAllTrailing(s: string, pat: string)
    requires pat != [] && !Contains(s, pat)
    requires forall d :: 1 <= d < |pat| ==> pat[d] != pat[0]
    ensures RemoveAll(s + pat, pat) == s
    decreases |s|
  {
    var w := s + pat;
    if s == [] {
      assert w[..|pat|] == pat && w[|pat|..] == [];
    } else {
      assert w[..|pat|] != pat by {
        if |s| >= |pat| {
          assert w[..|pat|] == s[..|pat|];
          assert !OccursAt(s, pat, 0);
        } else {
          assert w[..|pat|][|s|] == pat[0] != pat[|s|];
        }
      }
      assert RemoveAll(w, pat) == [s[0]] + RemoveAll(w[1..], pat);
      assert w[1..] == s[1..] + pat;
      NotContainsTail(s, pat);
      RemoveAllTrailing(s[1..], pat);
      assert s == [s[0]] + s[1..];
    }
  }

  /** The text after the last '/' (`s.split('/')[-1]`, also `os.path.basename`). */
  function LastSegment(s: string): string {
    if s == [] || s[|s| - 1] == '/' then []
    else LastSegment(s[..|s| - 1]) + [s[|s| - 1]]
  }

  /** The last segment has no '/', ends the text, and is preceded by '/' unless it is the whole text. */
  /** Appending one character to a text extends each of its suffixes by it. */
  lemma SuffixAppend(front: string, c: char, r: string)
    requires |r| <= |front| && front[|front| - |r|..] == r
    ensures (front + [c])[|front| - |r|..] == r + [c]
    ensures |r| < |front| ==> (front + [c])[|front| - |r| - 1] == front[|front| - |r| - 1]
  {
  }

  lemma {:induction false} LastSegmentIsBasename(s: string)
    ensures '/' !in LastSegment(s)
    ensures |LastSegment(s)| <= |s| && s[|s| - |LastSegment(s)|..] == LastSegment(s)
    ensures |LastSegment(s)| < |s| ==> s[|s| - |LastSegment(s)| - 1] == '/'
    decreases |s|
  {
    if s != [] && s[|s| - 1] != '/' {
      var front, c := s[..|s| - 1], s[|s| - 1];
      assert s == front + [c];
      LastSegmentIsBasename(front);
      SuffixAppend(front, c, LastSegment(front));
    }
  }


  /** A text without '/' is its own last segment. */
  lemma {:induction false} LastSegmentOfSegment(x: string)
    requires '/' !in x
    ensures LastSegment(x) == x
    decreases |x|
  {
    if x != [] {
      var front := x[..|x| - 1];
      assert x == front + [x[|x| - 1]];
      LastSegmentOfSegment(front);
    }
  }

  /** A leading '/' does not change the last segment. */
  lemma {:induction false} LastSegmentOfSlash(x: string)
    ensures LastSegment("/" + x) == LastSegment(x)
    decreases |x|
  {
    var s := "/" + x;
    if x == [] {
      assert s[|s| - 1] == '/';
    } else {
      assert s[|s| - 1] == x[|x| - 1];
      if x[|x| - 1] != '/' {
        assert s[..|s| - 1] == "/" + x[..|x| - 1];
        LastSegmentOfSlash(x[..|x| - 1]);
      }
    }
  }

  lemma {:induction false} LastSegmentOfAppendAt(a: string, x: string, i: nat)
    requires i < |x| && x[i] == '/'
    ensures LastSegment(a + x) == LastSegment(x)
    decreases |x|
  {
    var s := a + x;
    var c := x[|x| - 1];
    assert s[|s| - 1] == c;
    if c == '/' {
      assert LastSegment(s) == [] == LastSegment(x);
    } else {
      var y := x[..|x| - 1];
      var front := s[..|s| - 1];
      assert LastSegment(s) == LastSegment(front) + [c];
      assert front == a + y;
      assert LastSegment(x) == LastSegment(y) + [c];
      LastSegmentOfAppendAt(a, y, i);
    }
  }

  /** Text put in front of a text that contains '/' does not change its last segment. */
  lemma LastSegmentOfAppend(a: string, x: string)
    requires '/' in x
    ensures LastSegment(a + x) == LastSegment(x)
  {
    var i :| 0 <= i < |x| && x[i] == '/';
    LastSegmentOfAppendAt(a, x, i);
  }

  /** Whatever comes before a '/', the last segment is read from the text after it. */
  lemma LastSegmentAfterSlashRight(a: string, p: string)
    ensures LastSegment(a + ("/" + p)) == LastSegment(p)
  {
    var x := "/" + p;
    assert x[0] == '/';
    LastSegmentOfAppend(a, x);
    LastSegmentOfSlash(p);
  }

  /** The last segment of a path nested inside any text after a '/' is that of the path. */
  lemma LastSegmentNested(h: string, o: string, r: string, m: string, b: string, p: string)
    ensures LastSegment(h + (o + ("/" + (r + (m + (b + ("/" + p))))))) == LastSegment(p)
  {
    var x2 := b + ("/" + p);
    LastSegmentAfterSlashRight(b, p);
    assert '/' in x2;
    var x3 := m + x2;
    LastSegmentOfAppend(m, x2);
    var x4 := r + x3;
    LastSegmentOfAppend(r, x3);
    var x5 := "/" + x4;
    LastSegmentOfAppend("/", x4);
    LastSegmentOfAppend(o, x5);
    LastSegmentOfAppend(h, o + x5);
  }

  /**
   * `os.path.join(a, b)` for a relative `b`: a separator is inserted unless
   * `a` is empty or already ends with one.
   */
  function JoinPath(a: string, b: string): (r: string)
    ensures StartsWith(r, a) && EndsWith(r, b)
    ensures |r| == |a| + |b| + (if a == [] || a[|a| - 1] == '/' then 0 else 1)
  {
    if a == [] || a[|a| - 1] == '/' then a + b else a + "/" + b
  }

  /** `s.isdigit()` on ASCII: non-empty and all decimal digits. */
  predicate IsDigits(s: string) {
    |s| > 0 && forall i :: 0 <= i < |s| ==> IsDigit(s[i])
  }

  /** `sep.join(parts)`. */
  function JoinWith(parts: seq<string>, sep: string): (r: string)
  {
    if parts == [] then []
    else if |parts| == 1 then parts[0]
    else parts[0] + sep + JoinWith(parts[1..], sep)
  }

  /** Plain concatenation, as `+=` in a loop builds it. */
  function Concat(parts: seq<string>): string
  {
    if parts == [] then [] else parts[0] + Concat(parts[1..])
  }

  lemma ConcatAppend(parts: seq<string>, x: string)
    ensures Concat(parts + [x]) == Concat(parts) + x
  {
    if parts != [] {
      assert (parts + [x])[1..] == parts[1..] + [x];
      ConcatAppend(parts[1..], x);
    }
  }

  lemma JoinWithAppend(parts: seq<string>, x: string, sep: string)
    ensures JoinWith(parts + [x], sep) == if parts == [] then x else JoinWith(parts, sep) + sep + x
  {
    if |parts| > 1 {
      assert (parts + [x])[1..] == parts[1..] + [x];
      JoinWithAppend(parts[1..], x, sep);
    } else if |parts| == 1 {
      assert (parts + [x])[1..] == [x];
    }
  }

  // ---------------------------------------------------------------------
  // Python's ordering of strings: lexicographic by code point
  // ---------------------------------------------------------------------

  predicate StrLt(a: string, b: string) {
    if a == [] then b != []
    else if b == [] then false
    else a[0] < b[0] || (a[0] == b[0] && StrLt(a[1..], b[1..]))
  }

  predicate StrLe(a: string, b: string) {
    a == b || StrLt(a, b)
  }

  lemma StrLtIrreflexive(a: string)
    ensures !StrLt(a, a)
  {
  }

  lemma StrLtTransitive(a: string, b: string, c: string)
    requires StrLt(a, b) && StrLt(b, c)
    ensures StrLt(a, c)
  {
    if a != [] && b != [] && c != [] && a[0] == b[0] == c[0] {
      StrLtTransitive(a[1..], b[1..], c[1..]);
    }
  }

  lemma StrLtTotal(a: string, b: string)
    ensures a == b || StrLt(a, b) || StrLt(b, a)
  {
    if a != [] && b != [] && a[0] == b[0] {
      StrLtTotal(a[1..], b[1..]);
      if a[1..] == b[1..] {
        assert a == [a[0]] + a[1..] && b == [b[0]] + b[1..];
      }
    }
  }

  lemma StrLtAsymmetric(a: string, b: string)
    requires StrLt(a, b)
    ensures !StrLt(b, a) && a != b
  {
    if a != [] && b != [] && a[0] == b[0] {
      StrLtAsymmetric(a[1..], b[1..]);
    }
  }

  lemma StrLeTransitive(a: string, b: string, c: string)
    requires StrLe(a, b) && StrLe(b, c)
    ensures StrLe(a, c)
  {
    if a != b && b != c {
      StrLtTransitive(a, b, c);
    }
  }

  lemma StrLeTotal(a: string, b: string)
    ensures StrLe(a, b) || StrLe(b, a)
  {
    StrLtTotal(a, b);
  }

  lemma StrLeAntisymmetric(a: string, b: string)
    requires StrLe(a, b) && StrLe(b, a)
    ensures a == b
  {
    if a != b {
      StrLtAsymmetric(a, b);
    }
  }

  // ---------------------------------------------------------------------
  // Decimal formatting of a counter (`f"{count}"`)
  // ---------------------------------------------------------------------

  function DigitChar(d: nat): (c: char)
    requires d < 10
    ensures IsDigit(c)
  {
    (('0' as int) + d) as char
  }

  function NatToString(n: nat): (r: string)
    ensures IsDigits(r)
    decreases n
  {
    if n < 10 then [DigitChar(n)] else NatToString(n / 10) + [DigitChar(n % 10)]
  }

  function Pow10(k: nat): (p: nat)
    ensures p >= 1
  {
    if k == 0 then 1 else 10 * Pow10(k - 1)
  }

  /** A number of at least 10^k has more than k decimal digits. */
  lemma {:induction false} NatToStringLength(n: nat, k: nat)
    requires n >= Pow10(k)
    ensures |NatToString(n)| > k
    decreases k
  {
    if k > 0 {
      assert n / 10 >= Pow10(k - 1);
      NatToStringLength(n / 10, k - 1);
    }
  }

  // ---------------------------------------------------------------------
  // str.title()
  // ---------------------------------------------------------------------

  /**
   * Title-casing as Python does it: a letter is upper-cased when the
   * character before it is not a letter, lower-cased otherwise; every
   * other character is kept.
   */
  function TitleFrom(s: string, prevCased: bool): (r: string)
    ensures |r| == |s|
    ensures forall i :: 0 <= i < |s| && !IsLetter(s[i]) ==> r[i] == s[i]
    ensures forall i :: 0 <= i < |s| && IsLetter(s[i]) ==> IsLetter(r[i]) && LowerChar(r[i]) == LowerChar(s[i])
    ensures forall i :: 0 <= i < |s| && IsLetter(s[i]) ==>
      r[i] == if (if i == 0 then prevCased else IsLetter(s[i - 1])) then LowerChar(s[i]) else UpperChar(s[i])
  {
    if s == [] then []
    else if IsLetter(s[0]) then
      [if prevCased then LowerChar(s[0]) else UpperChar(s[0])] + TitleFrom(s[1..], true)
    else
      [s[0]] + TitleFrom(s[1..], false)
  }

  function Title(s: string): string {
    TitleFrom(s, false)
  }

  lemma {:induction false} TitleFromIdempotent(s: string, prevCased: bool)
    ensures TitleFrom(TitleFrom(s, prevCased), prevCased) == TitleFrom(s, prevCased)
  {
    if s != [] {
      var t := TitleFrom(s, prevCased);
      assert t[1..] == TitleFrom(s[1..], IsLetter(s[0]));
      TitleFromIdempotent(s[1..], IsLetter(s[0]));
    }
  }

  /** Title-casing twice is title-casing once. */
  lemma TitleIdempotent(s: string)
    ensures Title(Title(s)) == Title(s)
  {
    TitleFromIdempotent(s, false);
  }

  /** The first character of a title-cased word that starts with a letter is upper case. */
  lemma TitleCapitalisesFirstLetter(s: string)
    requires s != [] && IsLetter(s[0])
    ensures IsUpper(Title(s)[0])
  {
  }
}
