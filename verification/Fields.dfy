/** Cutting message text into folded fields (src/letter.cpp, src/mime.cpp). */
module Fields {
  import opened Text

  /** A field ends at x: a line feed followed by something that does not fold. */
  predicate CutsAt(s: string, x: int) {
    0 <= x < |s| - 1 && s[x] == '\n' && s[x + 1] != '\t' && s[x + 1] != ' '
  }

  /** The first cut at or after x, or |s|. */
  function NextCut(s: string, x: nat): (k: nat)
    requires x <= |s|
    ensures x <= k <= |s|
    ensures k < |s| ==> CutsAt(s, k)
    ensures forall y | x <= y < k :: !CutsAt(s, y)
    decreases |s| - x
  {
    if x == |s| || CutsAt(s, x) then x else NextCut(s, x + 1)
  }

  /** Fields that can be cut off while more text may still arrive ... */
  function Emitted(s: string): seq<string>
    decreases |s|
  {
    var k := NextCut(s, 0);
    if k == |s| then [] else [s[..k + 1]] + Emitted(s[k + 1..])
  }

  /** ... and the text that has to wait. */
  function Pending(s: string): string
    decreases |s|
  {
    var k := NextCut(s, 0);
    if k == |s| then s else Pending(s[k + 1..])
  }

  lemma FirstCut(s: string, k: nat)
    requires k == NextCut(s, 0)
    ensures k < |s| ==> Emitted(s) == [s[..k + 1]] + Emitted(s[k + 1..]) && Pending(s) == Pending(s[k + 1..])
    ensures k == |s| ==> Emitted(s) == [] && Pending(s) == s
  {
    hide NextCut, CutsAt;
  }

  /** The fields of a complete text. */
  function Cut(s: string): seq<string> {
    Emitted(s) + if Pending(s) == "" then [] else [Pending(s)]
  }

  // ---- incremental cutting is independent of the chunks ----

  lemma NextCutUnique(s: string, k: nat)
    requires k < |s| && CutsAt(s, k)
    requires forall y | 0 <= y < k :: !CutsAt(s, y)
    ensures NextCut(s, 0) == k
  {
  }

  lemma {:induction false} CutAppend(s: string, t: string)
    ensures Emitted(s + t) == Emitted(s) + Emitted(Pending(s) + t)
    ensures Pending(s + t) == Pending(Pending(s) + t)
    decreases |s|
  {
    var k := NextCut(s, 0);
    if k < |s| {
      forall y | 0 <= y < k ensures !CutsAt(s + t, y) {
        assert !CutsAt(s, y);
      }
      assert CutsAt(s, k);
      NextCutUnique(s + t, k);
      assert (s + t)[..k + 1] == s[..k + 1];
      assert (s + t)[k + 1..] == s[k + 1..] + t;
      CutAppend(s[k + 1..], t);
    }
  }

  lemma PendingHasNoCut(s: string)
    ensures NextCut(Pending(s), 0) == |Pending(s)|
    ensures Emitted(Pending(s)) == []
    ensures s != "" ==> Pending(s) != ""
    decreases |s|
  {
    var k := NextCut(s, 0);
    if k < |s| {
      PendingHasNoCut(s[k + 1..]);
    }
  }

  lemma TileStep(p: string, es: seq<string>, pending: string, rest: string)
    requires Concat(es) + pending == rest
    ensures Concat([p] + es) + pending == p + rest
  {
    ConcatCons(p, es);
    assert (p + Concat(es)) + pending == p + (Concat(es) + pending);
  }

  lemma {:induction false} EmittedTiles(s: string)
    ensures Concat(Emitted(s)) + Pending(s) == s
    decreases |s|
  {
    var k := NextCut(s, 0);
    if k < |s| {
      var p, rest := s[..k + 1], s[k + 1..];
      EmittedTiles(rest);
      assert s == p + rest;
      TileStep(p, Emitted(rest), Pending(rest), rest);
    }
  }

  lemma {:induction false} EmittedNonEmpty(s: string)
    ensures "" !in Emitted(s)
    decreases |s|
  {
    var k := NextCut(s, 0);
    if k < |s| {
      EmittedNonEmpty(s[k + 1..]);
    }
  }

  lemma CutTiles(s: string)
    ensures Concat(Cut(s)) == s
    ensures "" !in Cut(s)
    ensures s != "" ==> Cut(s) != []
  {
    EmittedTiles(s);
    EmittedNonEmpty(s);
    PendingHasNoCut(s);
    ConcatSnoc(Emitted(s), Pending(s));
  }

  // ---- an independent reading of what a field is ----

  ghost predicate Solid(p: string) {
    p != "" && forall x :: !CutsAt(p, x)
  }

  function First(s: string): char {
    if s == "" then '\0' else s[0]
  }

  function Last(s: string): char {
    if s == "" then '\0' else s[|s| - 1]
  }

  predicate Meets(p: string, q: string) {
    Last(p) == '\n' && First(q) != '\t' && First(q) != ' '
  }

  /** `pieces` make up s; no piece could be cut further, and two neighbours could not be joined. */
  ghost predicate IsFolding(s: string, pieces: seq<string>) {
    && Concat(pieces) == s
    && (forall p | p in pieces :: Solid(p))
    && (forall i, j | 0 <= i < j == i + 1 < |pieces| :: Meets(pieces[i], pieces[j]))
  }

  lemma {:induction false} CutIsFolding(s: string)
    ensures IsFolding(s, Cut(s))
    decreases |s|
  {
    CutTiles(s);
    PendingHasNoCut(s);
    var k := NextCut(s, 0);
    if k == |s| {
      assert Cut(s) == if s == "" then [] else [s];
    } else {
      var p, rest := s[..k + 1], s[k + 1..];
      assert Cut(s) == [p] + Cut(rest);
      CutIsFolding(rest);
      forall x ensures !CutsAt(p, x) {
        assert x < k ==> !CutsAt(s, x);
      }
      CutTiles(rest);
      assert First(Cut(rest)[0]) == rest[0];
      assert Meets(p, Cut(rest)[0]);
    }
  }

  /** Cut is the one and only folding of a text. */
  lemma {:induction false} FoldingIsUnique(s: string, pieces: seq<string>)
    requires IsFolding(s, pieces)
    ensures pieces == Cut(s)
    decreases |s|
  {
    if pieces == [] {
      assert s == "";
    } else {
      var p, tail := pieces[0], pieces[1..];
      var rest := Concat(tail);
      assert s == p + rest;
      if tail == [] {
        assert s == p;
        assert Solid(p);
        assert pieces == [s];
      } else {
        assert tail[0] == pieces[1] && Solid(pieces[1]);
        assert rest == tail[0] + Concat(tail[1..]) && First(tail[0]) == rest[0] == s[|p|];
        assert Meets(p, pieces[1]) && Solid(p);
        assert CutsAt(s, |p| - 1);
        forall y | 0 <= y < |p| - 1 ensures !CutsAt(s, y) {
          assert !CutsAt(p, y);
        }
        NextCutUnique(s, |p| - 1);
        assert s[..|p|] == p && s[|p|..] == rest;
        forall i, j | 0 <= i < j == i + 1 < |tail| ensures Meets(tail[i], tail[j]) {
          assert tail[i] == pieces[i + 1] && tail[j] == pieces[j + 1];
        }
        FoldingIsUnique(rest, tail);
        assert Cut(s) == [p] + Cut(rest);
      }
    }
  }

  const FOLDED: seq<string> := ["a: b\r\n\tc\r\n d\r\n", "e: f\r\n", "\r\n", "x"]

  /** A line that starts with a tab or a space continues the field before it. */
  lemma TabsAndSpacesFold()
    ensures Cut("a: b\r\n\tc\r\n d\r\ne: f\r\n\r\nx") == FOLDED
  {
    var text := "a: b\r\n\tc\r\n d\r\ne: f\r\n\r\nx";
    ConcatCons(FOLDED[0], FOLDED[1..]);
    ConcatCons(FOLDED[1], FOLDED[2..]);
    ConcatCons(FOLDED[2], FOLDED[3..]);
    ConcatCons(FOLDED[3], []);
    assert Concat(FOLDED) == FOLDED[0] + (FOLDED[1] + (FOLDED[2] + (FOLDED[3] + ""))) == text;
    forall p | p in FOLDED ensures Solid(p) {
      assert p == FOLDED[0] || p == FOLDED[1] || p == FOLDED[2] || p == FOLDED[3];
    }
    FoldingIsUnique(text, FOLDED);
  }
}
