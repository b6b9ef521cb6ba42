/** Vocabulary shared by the whole project: optional values, byte counts,
    concatenation of pieces, and 32-bit wrap-around. */
module Text {

  datatype Option<+T> = None | Some(value: T)

  type Byte = b: int | 0 <= b < 256

  const TWO_32: int := 0x1_0000_0000

  /** What an `unsigned int` holds after storing n. */
  function Wrap32(n: int): (r: nat)
    ensures r < TWO_32
  {
    n % TWO_32
  }

  lemma WrapSmall(n: int)
    ensures 0 <= n < TWO_32 ==> Wrap32(n) == n
  {
  }

  lemma WrapAdd(a: int, b: int)
    ensures Wrap32(Wrap32(a) + b) == Wrap32(a + b)
  {
  }

  /** The number of characters `c` in s. */
  function Count(s: string, c: char): nat {
    if s == "" then 0 else (if s[0] == c then 1 else 0) + Count(s[1..], c)
  }

  lemma {:induction false} CountAppend(s: string, t: string, c: char)
    ensures Count(s + t, c) == Count(s, c) + Count(t, c)
  {
    if s == "" {
      assert s + t == t;
    } else {
      assert (s + t)[1..] == s[1..] + t;
      CountAppend(s[1..], t, c);
    }
  }

  function Concat(pieces: seq<string>): string {
    if pieces == [] then "" else pieces[0] + Concat(pieces[1..])
  }

  lemma {:induction false} ConcatAppend(xs: seq<string>, ys: seq<string>)
    ensures Concat(xs + ys) == Concat(xs) + Concat(ys)
  {
    if xs == [] {
      assert xs + ys == ys;
    } else {
      assert (xs + ys)[1..] == xs[1..] + ys;
      ConcatAppend(xs[1..], ys);
    }
  }

  lemma ConcatCons(x: string, ys: seq<string>)
    ensures Concat([x] + ys) == x + Concat(ys)
  {
    assert ([x] + ys)[1..] == ys;
  }

  lemma ConcatSnoc(xs: seq<string>, y: string)
    ensures Concat(xs + [y]) == Concat(xs) + y
  {
    ConcatAppend(xs, [y]);
    assert [y][1..] == [];
  }

  lemma {:induction false} NonEmptyConcat(xs: seq<string>)
    requires xs != []
    requires "" !in xs
    ensures |Concat(xs)| > 0
  {
  }

  lemma Assoc<T>(a: seq<T>, b: seq<T>, c: seq<T>)
    ensures a + b + c == a + (b + c)
  {
  }

  lemma SliceOfSlice<T>(s: seq<T>, a: nat, b: nat, c: nat, e: nat)
    requires a + e <= b <= |s| && c <= e
    ensures s[a..b][c..e] == s[a + c..a + e]
  {
    var x, y := s[a..b][c..e], s[a + c..a + e];
    assert |x| == |y|;
    forall i | 0 <= i < |x| ensures x[i] == y[i] {
      assert s[a..b][c + i] == s[a + (c + i)];
    }
  }

  function ToLower(c: char): char {
    if 'A' <= c <= 'Z' then c - 'A' + 'a' else c
  }

  /** `strcasecmp(a, b) == 0`. */
  predicate EqualsIgnoreCase(a: string, b: string) {
    |a| == |b| && forall i | 0 <= i < |a| :: ToLower(a[i]) == ToLower(b[i])
  }

  const UPPER := "ABCDEFGHIJKLMNOPQRSTUVWXYZ"
  const LOWER := "abcdefghijklmnopqrstuvwxyz"

  lemma Alphabets(i: nat)
    requires i < 26
    ensures UPPER[i] == 'A' + i as char && LOWER[i] == 'a' + i as char
  {
  }

  /** A capital is read as its small letter, anything else as itself. */
  lemma CaseIgnored()
    ensures EqualsIgnoreCase(UPPER, LOWER) && forall c | c !in UPPER :: ToLower(c) == c
  {
    forall i | 0 <= i < 26
      ensures ToLower(UPPER[i]) == ToLower(LOWER[i])
    {
      Alphabets(i);
    }
    forall c | 'A' <= c <= 'Z'
      ensures c in UPPER
    {
      Alphabets((c - 'A') as nat);
      assert UPPER[(c - 'A') as nat] == c;
    }
  }

  /** `strncasecmp(s, p, strlen(p)) == 0`. */
  predicate StartsIgnoreCase(s: string, p: string) {
    |p| <= |s| && EqualsIgnoreCase(s[..|p|], p)
  }

  /** A text that starts with one word does not start with another that differs in some letter. */
  lemma OneWord(s: string, w: string, v: string, k: nat)
    requires StartsIgnoreCase(s, w) && k < |w| && k < |v| && ToLower(w[k]) != ToLower(v[k])
    ensures !StartsIgnoreCase(s, v)
  {
  }

  /** What stands before the first `end`. */
  function UpTo<T(==)>(s: seq<T>, end: T): seq<T> {
    if s == [] || s[0] == end then [] else [s[0]] + UpTo(s[1..], end)
  }

  lemma {:induction false} UpToWhole<T>(s: seq<T>, end: T)
    ensures |UpTo(s, end)| <= |s|
    ensures |UpTo(s, end)| == |s| <==> end !in s
    ensures end !in s ==> UpTo(s, end) == s
  {
    if s != [] {
      UpToWhole(s[1..], end);
      assert s == [s[0]] + s[1..];
    }
  }

  /** The C string at the start of s. */
  function CString(s: string): string { UpTo(s, '\0') }

  lemma CStringWhole(s: string)
    ensures |CString(s)| <= |s|
    ensures |CString(s)| == |s| <==> '\0' !in s
    ensures '\0' !in s ==> CString(s) == s
  {
    UpToWhole(s, '\0');
  }

  /** What appending each piece as a C string gives. */
  function CStrings(pieces: seq<string>): string {
    if pieces == [] then "" else CString(pieces[0]) + CStrings(pieces[1..])
  }

  lemma {:induction false} CStringsSnoc(pieces: seq<string>, p: string)
    ensures CStrings(pieces + [p]) == CStrings(pieces) + CString(p)
  {
    hide CString;
    if pieces == [] {
      assert [p][1..] == [];
    } else {
      assert (pieces + [p])[1..] == pieces[1..] + [p];
      CStringsSnoc(pieces[1..], p);
      Assoc(CString(pieces[0]), CStrings(pieces[1..]), CString(p));
    }
  }

  /** It is the pieces themselves if and only if none holds a NUL. */
  lemma {:induction false} CStringsWhole(pieces: seq<string>)
    ensures |CStrings(pieces)| <= |Concat(pieces)|
    ensures |CStrings(pieces)| == |Concat(pieces)| <==> '\0' !in Concat(pieces)
    ensures '\0' !in Concat(pieces) ==> CStrings(pieces) == Concat(pieces)
  {
    hide CString;
    if pieces != [] {
      CStringWhole(pieces[0]);
      CStringsWhole(pieces[1..]);
    }
  }

  lemma {:induction false} NulEnds(buf: string, s: string)
    requires |s| < |buf| && buf[..|s|] == s && buf[|s|] == '\0'
    ensures CString(buf) == CString(s)
  {
    if s != "" {
      assert buf[0] == buf[..|s|][0] == s[0];
      assert buf[1..][..|s| - 1] == buf[..|s|][1..] == s[1..];
      NulEnds(buf[1..], s[1..]);
    }
  }

  /** The lines around the parts of a multipart. */
  function BeginMarker(boundary: string): string { "--" + boundary + "\r\n" }

  function EndMarker(boundary: string): string { "--" + boundary + "--\r\n" }

  /** `e` stands in buf at offset `beg`. */
  predicate At<T(==)>(buf: seq<T>, beg: int, e: seq<T>) {
    0 <= beg && beg + |e| <= |buf| && buf[beg..beg + |e|] == e
  }

  lemma AtHalves<T>(buf: seq<T>, beg: nat, e: seq<T>, f: seq<T>)
    requires At(buf, beg, e + f)
    ensures At(buf, beg, e) && At(buf, beg + |e|, f)
  {
    assert (e + f)[..|e|] == e && (e + f)[|e|..] == f;
    SliceOfSlice(buf, beg, beg + |e + f|, 0, |e|);
    SliceOfSlice(buf, beg, beg + |e + f|, |e|, |e + f|);
  }

  lemma AtSlice<T>(buf: seq<T>, beg: int, e: seq<T>)
    requires At(buf, beg, e)
    ensures 0 <= beg && beg + |e| <= |buf| && buf[beg..beg + |e|] == e
  {
  }

  lemma AtOne<T>(buf: seq<T>, beg: int, x: T)
    requires At(buf, beg, [x])
    ensures 0 <= beg < |buf| && buf[beg] == x
  {
    assert buf[beg..beg + 1][0] == x;
  }

  lemma ConsEqual<T>(x: T, xs: seq<T>, y: T, ys: seq<T>)
    ensures [x] + xs == [y] + ys <==> x == y && xs == ys
  {
    if [x] + xs == [y] + ys {
      assert ([x] + xs)[0] == ([y] + ys)[0] && ([x] + xs)[1..] == ([y] + ys)[1..];
    }
  }

  /** memcpy(dest + at, src, |src|). */
  method Copy<T>(dest: array<T>, at: nat, src: seq<T>)
    requires at + |src| <= dest.Length
    modifies dest
    ensures dest[..at + |src|] == old(dest[..at]) + src && dest[at..at + |src|] == src
    ensures dest[..at] == old(dest[..at])
    ensures forall k | at + |src| <= k < dest.Length :: dest[k] == old(dest[k])
  {
    var i := 0;
    while i < |src|
      invariant 0 <= i <= |src|
      invariant dest[..at + i] == old(dest[..at]) + src[..i]
      invariant forall k | at + i <= k < dest.Length :: dest[k] == old(dest[k])
    {
      dest[at + i] := src[i];
      i := i + 1;
    }
    assert dest[at..at + |src|] == dest[..at + |src|][at..];
    assert dest[..at] == dest[..at + |src|][..at];
  }
}
