/**
 The searches of std::string_view that the parsers use, each with what it finds and what it leaves out: substrings,
 characters of a set and outside a set, from the front and from the back. Searching in a suffix is tied to searching
 the whole text from a position on, and a find stays where it is when more text follows.
 */
module Text {
  import opened Bytes

  const CR: byte := 13
  const LF: byte := 10
  const SP: byte := 32
  const TAB: byte := 9
  const QUOTE: byte := 34
  const PERCENT: byte := 37
  const COLON: byte := 58
  const EQUALS: byte := 61
  const QUESTION: byte := 63
  const HASH: byte := 35
  const DASH: byte := 45
  const AMPERSAND: byte := 38

  const CRLF: Bytes := [13, 10]
  const CRLFCRLF: Bytes := [13, 10, 13, 10]
  const BLANKS: Bytes := [32, 9]
  const ILLEGAL: Bytes := [32, 9, 13, 10]

  /** `pat` stands in `s` at position `i`. */
  predicate At(s: Bytes, pat: Bytes, i: int) {
    0 <= i <= |s| - |pat| && s[i..i + |pat|] == pat
  }

  /** find: the first position from `start` on, or -1 for npos. */
  function Find(s: Bytes, pat: Bytes, start: nat): (r: int)
    ensures r == -1 || (start <= r && At(s, pat, r))
    ensures forall i :: start <= i && At(s, pat, i) ==> 0 <= r <= i
    decreases |s| - start
  {
    if start + |pat| > |s| then -1
    else if At(s, pat, start) then start
    else if start + |pat| == |s| then -1
    else Find(s, pat, start + 1)
  }

  /** find_first_of. */
  function FindAny(s: Bytes, set_: Bytes, start: nat): (r: int)
    ensures r == -1 || (start <= r < |s| && s[r] in set_)
    ensures forall i :: start <= i < |s| && (r == -1 || i < r) ==> s[i] !in set_
    decreases |s| - start
  {
    if start >= |s| then -1
    else if s[start] in set_ then start
    else FindAny(s, set_, start + 1)
  }

  /** find_first_not_of. */
  function FindNot(s: Bytes, set_: Bytes, start: nat): (r: int)
    ensures r == -1 || (start <= r < |s| && s[r] !in set_)
    ensures forall i :: start <= i < |s| && (r == -1 || i < r) ==> s[i] in set_
    decreases |s| - start
  {
    if start >= |s| then -1
    else if s[start] !in set_ then start
    else FindNot(s, set_, start + 1)
  }

  /** find_last_not_of. */
  function FindLastNot(s: Bytes, set_: Bytes): (r: int)
    ensures r == -1 || (0 <= r < |s| && s[r] !in set_)
    ensures forall i :: r < i < |s| ==> s[i] in set_
  {
    if s == [] then -1
    else if s[|s| - 1] !in set_ then |s| - 1
    else FindLastNot(s[..|s| - 1], set_)
  }

  /** find of a single character. */
  function FindByte(s: Bytes, c: byte, start: nat): (r: int)
    ensures r == -1 || (start <= r < |s| && s[r] == c)
    ensures forall i :: start <= i < |s| && (r == -1 || i < r) ==> s[i] != c
  {
    FindAny(s, [c], start)
  }

  /** What comes before position `r`, all of it when nothing was found. */
  function Before(s: Bytes, r: int): (t: Bytes)
    requires -1 <= r <= |s|
    ensures |t| <= |s|
  {
    if r == -1 then s else s[..r]
  }

  /** find_last_not_of, and cut behind it. */
  function TrimRight(s: Bytes, set_: Bytes): (t: Bytes) {
    s[..FindLastNot(s, set_) + 1]
  }

  function LowerByte(c: byte): byte {
    if 65 <= c <= 90 then c + 32 else c
  }

  function ToLower(s: Bytes): (r: Bytes)
    ensures |r| == |s|
  {
    seq(|s|, i requires 0 <= i < |s| => LowerByte(s[i]))
  }

  lemma SliceOfSuffix(s: Bytes, k: nat, i: nat, j: nat)
    requires i <= j && k + j <= |s|
    ensures s[k..][i..j] == s[k + i..k + j] && s[k..][j..] == s[k + j..] && s[k..][..j] == s[k..k + j]
  {
  }

  lemma FoundWithin(s: Bytes, pat: Bytes)
    ensures Find(s, pat, 0) + |pat| <= |s| || Find(s, pat, 0) == -1
  {
  }

  // ---- Searching in a suffix ----

  lemma AtSuffix(s: Bytes, pat: Bytes, k: nat, i: nat)
    requires k <= |s|
    ensures At(s[k..], pat, i) <==> At(s, pat, k + i)
  {
    if k + i + |pat| <= |s| {
      assert s[k..][i..i + |pat|] == s[k + i..k + i + |pat|];
    }
  }

  /** Searching from `k` on is searching in what follows `k`. */
  lemma FindSuffix(s: Bytes, pat: Bytes, k: nat)
    requires k <= |s|
    ensures Find(s, pat, k) == if Find(s[k..], pat, 0) == -1 then -1 else k + Find(s[k..], pat, 0)
  {
    var r, q := Find(s, pat, k), Find(s[k..], pat, 0);
    if q != -1 {
      AtSuffix(s, pat, k, q);
    }
    if r != -1 {
      AtSuffix(s, pat, k, r - k);
    }
  }

  lemma FindAnySuffix(s: Bytes, set_: Bytes, k: nat)
    requires k <= |s|
    ensures FindAny(s, set_, k) == if FindAny(s[k..], set_, 0) == -1 then -1 else k + FindAny(s[k..], set_, 0)
  {
    var r, q := FindAny(s, set_, k), FindAny(s[k..], set_, 0);
    if q != -1 {
      assert s[k..][q] == s[k + q];
    }
    if r != -1 {
      assert s[k..][r - k] == s[r];
    }
  }

  lemma FindNotSuffix(s: Bytes, set_: Bytes, k: nat)
    requires k <= |s|
    ensures FindNot(s, set_, k) == if FindNot(s[k..], set_, 0) == -1 then -1 else k + FindNot(s[k..], set_, 0)
  {
    var r, q := FindNot(s, set_, k), FindNot(s[k..], set_, 0);
    if q != -1 {
      assert s[k..][q] == s[k + q];
    }
    if r != -1 {
      assert s[k..][r - k] == s[r];
    }
  }

  lemma FindByteSuffix(s: Bytes, c: byte, k: nat)
    requires k <= |s|
    ensures FindByte(s, c, k) == if FindByte(s[k..], c, 0) == -1 then -1 else k + FindByte(s[k..], c, 0)
  {
    FindAnySuffix(s, [c], k);
  }

  /** The first character of a kind is where a prefix free of that kind ends. */
  lemma FindByteAfter(a: Bytes, c: byte, b: Bytes)
    requires c !in a
    ensures FindByte(a + [c] + b, c, 0) == |a|
  {
    var s := a + [c] + b;
    var r := FindByte(s, c, 0);
    assert s[|a|] == c;
    assert forall i :: 0 <= i < |a| ==> s[i] == a[i];
  }

  lemma FindByteNone(a: Bytes, c: byte)
    requires c !in a
    ensures FindByte(a, c, 0) == -1
  {
  }

  /** More text behind a find does not change it. */
  lemma FindStays(a: Bytes, pat: Bytes, b: Bytes)
    requires Find(a, pat, 0) != -1
    ensures Find(a + b, pat, 0) == Find(a, pat, 0)
  {
    var r, q := Find(a, pat, 0), Find(a + b, pat, 0);
    assert (a + b)[r..r + |pat|] == a[r..r + |pat|];
    assert At(a + b, pat, r);
    assert (a + b)[q..q + |pat|] == a[q..q + |pat|];
    assert At(a, pat, q);
  }

  /** The first place is the one that is found. */
  lemma FirstFind(s: Bytes, pat: Bytes, i: nat)
    requires At(s, pat, i) && forall j :: 0 <= j < i ==> !At(s, pat, j)
    ensures Find(s, pat, 0) == i
  {
    hide Find, At;
  }

  lemma NeverFound(s: Bytes, pat: Bytes)
    requires forall j :: !At(s, pat, j)
    ensures Find(s, pat, 0) == -1
  {
    hide Find, At;
  }

  /** A find that lies in a prefix is found there. */
  lemma FindInPrefix(s: Bytes, pat: Bytes, k: nat)
    requires k <= |s| && Find(s, pat, 0) != -1 && Find(s, pat, 0) + |pat| <= k
    ensures Find(s[..k], pat, 0) == Find(s, pat, 0)
  {
    hide Find, At;
    var a, b := s[..k], s[k..];
    assert s == a + b;
    AtPrefix(a, b, pat, Find(s, pat, 0));
    FindStays(a, pat, b);
  }

  lemma AtPrefix(a: Bytes, b: Bytes, pat: Bytes, i: nat)
    requires At(a + b, pat, i) && i + |pat| <= |a|
    ensures At(a, pat, i)
  {
    assert (a + b)[i..i + |pat|] == a[i..i + |pat|];
  }
}
