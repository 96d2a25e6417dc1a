/** The operations of Go's strings package that the source uses, on sequences. */
module Strings {

  function Join<T>(parts: seq<seq<T>>, sep: T): (s: seq<T>)
    requires |parts| > 0
  {
    if |parts| == 1 then parts[0] else parts[0] + [sep] + Join(parts[1..], sep)
  }

  /** strings.Split with a one-element separator. The three clauses determine the result. */
  function Split<T(==)>(s: seq<T>, sep: T): (parts: seq<seq<T>>)
    ensures |parts| > 0
    ensures forall i :: 0 <= i < |parts| ==> sep !in parts[i]
    ensures Join(parts, sep) == s
  {
    if sep !in s then [s]
    else
      var i := IndexOf(s, sep);
      var rest := Split(s[i + 1..], sep);
      assert s == s[..i] + [sep] + s[i + 1..];
      assert ([s[..i]] + rest)[1..] == rest;
      [s[..i]] + rest
  }

  /** The position of the first occurrence. */
  function IndexOf<T(==)>(s: seq<T>, x: T): (i: nat)
    requires x in s
    ensures i < |s| && s[i] == x && x !in s[..i]
  {
    if s[0] == x then 0
    else
      assert s == [s[0]] + s[1..];
      var i := IndexOf(s[1..], x) + 1;
      assert s[..i] == [s[0]] + s[1..][..i - 1];
      i
  }

  /** The position of the last occurrence. */
  function LastIndexOf<T(==)>(s: seq<T>, x: T): (i: nat)
    requires x in s
    ensures i < |s| && s[i] == x && forall j :: i < j < |s| ==> s[j] != x
  {
    if s[|s| - 1] == x then |s| - 1
    else
      assert s == s[..|s| - 1] + [s[|s| - 1]];
      LastIndexOf(s[..|s| - 1], x)
  }

  lemma {:induction false} IndexOfSeparator<T>(front: seq<T>, x: T, back: seq<T>)
    requires x !in front
    ensures IndexOf(front + [x] + back, x) == |front|
  {
    var s := front + [x] + back;
    if front != [] {
      assert s[1..] == front[1..] + [x] + back;
      assert s[0] == front[0];
      IndexOfSeparator(front[1..], x, back);
    }
  }

  lemma {:induction false} LastIndexOfSeparator<T>(front: seq<T>, x: T, back: seq<T>)
    requires x !in back
    ensures LastIndexOf(front + [x] + back, x) == |front|
  {
    var s := front + [x] + back;
    if back != [] {
      var n := |back| - 1;
      assert s[..|s| - 1] == front + [x] + back[..n];
      assert s[|s| - 1] == back[n];
      LastIndexOfSeparator(front, x, back[..n]);
    }
  }

  /** The part in front of the first separator comes off first. */
  lemma SplitFirst<T>(front: seq<T>, sep: T, back: seq<T>)
    requires sep !in front
    ensures Split(front + [sep] + back, sep) == [front] + Split(back, sep)
  {
    var s := front + [sep] + back;
    IndexOfSeparator(front, sep, back);
    assert s[|front|] == sep && s[..|front|] == front && s[|front| + 1..] == back;
  }

  /** unicode.IsSpace. */
  predicate IsSpace(c: char) {
    || '\t' <= c <= '\r' || c == ' ' || c == '\U{0085}' || c == '\U{00A0}' || c == '\U{1680}'
    || '\U{2000}' <= c <= '\U{200A}' || c == '\U{2028}' || c == '\U{2029}' || c == '\U{202F}'
    || c == '\U{205F}' || c == '\U{3000}'
  }

  /** The code points with the property White_Space in Unicode. */
  lemma IsSpaceIff(c: char)
    ensures IsSpace(c)
            <==> c as int in {0x9, 0xA, 0xB, 0xC, 0xD, 0x20, 0x85, 0xA0, 0x1680, 0x2000, 0x2001, 0x2002, 0x2003, 0x2004,
                              0x2005, 0x2006, 0x2007, 0x2008, 0x2009, 0x200A, 0x2028, 0x2029, 0x202F, 0x205F, 0x3000}
  {
  }

  predicate AllSpace(s: string) {
    forall i :: 0 <= i < |s| ==> IsSpace(s[i])
  }

  /** No space at either end. */
  predicate Trimmed(s: string) {
    s == [] || (!IsSpace(s[0]) && !IsSpace(s[|s| - 1]))
  }

  /** strings.TrimSpace. */
  function TrimSpace(s: string): (r: string)
    ensures Trimmed(r)
  {
    var i := SkipSpace(s, 0);
    s[i..SkipSpaceBack(s, i, |s|)]
  }

  /** TrimSpace removes spaces only. */
  lemma TrimSpaceRemoves(s: string) returns (front: string, back: string)
    ensures s == front + TrimSpace(s) + back && AllSpace(front) && AllSpace(back)
  {
    var i := SkipSpace(s, 0);
    var j := SkipSpaceBack(s, i, |s|);
    front, back := s[..i], s[j..];
  }

  function SkipSpace(s: string, i: nat): (r: nat)
    requires i <= |s| && AllSpace(s[..i])
    ensures i <= r <= |s| && AllSpace(s[..r]) && (r < |s| ==> !IsSpace(s[r]))
    decreases |s| - i
  {
    if i < |s| && IsSpace(s[i]) then SkipSpace(s, i + 1) else i
  }

  function SkipSpaceBack(s: string, low: nat, j: nat): (r: nat)
    requires low <= j <= |s| && AllSpace(s[j..]) && (low < |s| ==> !IsSpace(s[low]))
    ensures low <= r <= j && AllSpace(s[r..]) && (low < r ==> !IsSpace(s[r - 1]))
    decreases j
  {
    if low < j && IsSpace(s[j - 1]) then SkipSpaceBack(s, low, j - 1) else j
  }

  /** strings.Contains. */
  predicate Contains(s: string, sub: string) {
    exists i :: 0 <= i <= |s| && sub <= s[i..]
  }

  /** A text contains exactly its parts. */
  lemma ContainsIff(s: string, sub: string)
    ensures Contains(s, sub) <==> exists front: string, back: string :: front + sub + back == s
  {
    if Contains(s, sub) {
      var i :| 0 <= i <= |s| && sub <= s[i..];
      assert s[..i] + sub + s[i + |sub|..] == s;
    }
    forall front: string, back: string | front + sub + back == s ensures Contains(s, sub) {
      assert s[|front|..] == sub + back;
    }
  }
}
