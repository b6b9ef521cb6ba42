/** What SEARCH answers to a rendered query. */
module SearchMeaning {
  import opened Text
  import opened Mailbox
  import opened Search

  /** A query as the code knows it: status keys, ALL, OR, NOTs and groups. */
  predicate Readable(ks: seq<Key>) {
    forall k | k in ks ::
      match k
      case Flag(_, name) => KeyOf(name).Some? || name == "ALL" || name == "OR"
      case Group(_, inner) => Readable(inner)
  }

  /** What becomes of one message from some key on: `kept` tells whether it is in so far, `any` whether
      OR has been met at this level, after which a key lets messages in instead of out. */
  function Verdict(status: bv32, ks: seq<Key>, any: bool, neg: bool, kept: bool): bool
    decreases ks
  {
    if ks == [] then kept
    else
      var now, rest := neg || ks[0].nots > 0, ks[1..];
      match ks[0]
      case Group(_, inner) => Verdict(status, rest, any, now, Verdict(status, inner, false, false, kept))
      case Flag(_, name) =>
        if name == "ALL" then Verdict(status, rest, any, now, true)
        else if name == "OR" then Verdict(status, rest, true, now, kept)
        else
          var holds := HasKey(status, name) != now;
          Verdict(status, rest, any, false, if any then kept || holds else kept && holds)
  }

  // ---- the loops over the table ----

  /** One loop stores `value` for exactly the mids that some message with the attribute as said bears. */
  lemma {:induction false} MarkSets(table: seq<Message>, mask: bv32, present: bool, value: int,
                                    result: map<int, int>, mid: int)
    requires mid in result
    ensures var r := Mark(table, mask, present, value, result);
            mid in r && r[mid] == if exists m | m in table :: m.mid == mid && Has(m.status, mask) == present then value
                                  else result[mid]
    decreases |table|
  {
    hide Has;
    if table != [] {
      var m, rest := table[0], table[1..];
      assert table == [m] + rest;
      var next := if Has(m.status, mask) == present then result[m.mid := value] else result;
      MarkSets(rest, mask, present, value, next, mid);
      if m.mid == mid && Has(m.status, mask) == present {
        assert m in table;
      }
    }
  }

  lemma MarkOne(table: seq<Message>, mask: bv32, present: bool, value: int, result: map<int, int>, m: Message)
    requires DistinctMids(table) && m in table && m.mid in result
    ensures var r := Mark(table, mask, present, value, result);
            m.mid in r && r[m.mid] == if Has(m.status, mask) == present then value else result[m.mid]
  {
    hide Has, Mark;
    MarkSets(table, mask, present, value, result, m.mid);
    assert forall x | x in table && x.mid == m.mid :: x == m;
  }

  lemma HasNothing(status: bv32)
    ensures Has(status, 0)
  {
  }

  // ---- the items of a query ----

  predicate Bounded(items: seq<Item>, bound: nat) { forall it | it in items :: it.deep ==> |it.text| < bound }

  function RelationOf(any: bool): Relation { if any then ORing else ANDing }

  lemma {:induction false} EvalNots(table: seq<Message>, n: nat, items: seq<Item>, any: bool, carry: bool,
                                    result: map<int, int>, bound: nat)
    requires Bounded(items, bound)
    ensures Eval(table, NotItems(n) + items, RelationOf(any), carry, result, bound)
            == Eval(table, items, RelationOf(any), carry || n > 0, result, bound)
    decreases n
  {
    if n == 0 {
      assert [] + items == items;
    } else {
      assert (NotItems(n) + items)[1..] == NotItems(n - 1) + items;
      EvalNots(table, n - 1, items, any, true, result, bound);
    }
  }

  lemma EvalFlag(table: seq<Message>, name: string, more: seq<Item>, any: bool, carry: bool,
                 result: map<int, int>, bound: nat)
    requires KeyOf(name).Some? && Bounded(more, bound)
    ensures var (mask, wanted) := KeyOf(name).value;
            Eval(table, [Item(name, false)] + more, RelationOf(any), carry, result, bound)
            == Eval(table, more, RelationOf(any), false,
                    if any then Mark(table, mask, wanted != carry, 1, result)
                    else Mark(table, mask, wanted == carry, 0, result), bound)
  {
    KeyNames(name);
    assert ([Item(name, false)] + more)[1..] == more;
    hide KeyOf;
  }

  lemma EvalWords(table: seq<Message>, more: seq<Item>, any: bool, carry: bool, result: map<int, int>, bound: nat)
    requires Bounded(more, bound)
    ensures Eval(table, [Item("ALL", false)] + more, RelationOf(any), carry, result, bound)
            == Eval(table, more, RelationOf(any), carry, Mark(table, 0, true, 1, result), bound)
    ensures Eval(table, [Item("OR", false)] + more, RelationOf(any), carry, result, bound)
            == Eval(table, more, RelationOf(true), carry, result, bound)
  {
    assert ([Item("ALL", false)] + more)[1..] == more && ([Item("OR", false)] + more)[1..] == more;
  }

  lemma EvalGroup(table: seq<Message>, text: string, more: seq<Item>, any: bool, carry: bool,
                  result: map<int, int>, bound: nat)
    requires |text| < bound && Bounded(more, bound)
    ensures Eval(table, [Item(text, true)] + more, RelationOf(any), carry, result, bound)
            == Eval(table, more, RelationOf(any), carry, SubSearched(table, text, result), bound)
  {
    hide KeyOf;
    assert ([Item(text, true)] + more)[1..] == more;
  }

  lemma EvalNothing(table: seq<Message>, result: map<int, int>)
    ensures Eval(table, [Item("", false)], ANDing, false, result, 0) == result
  {
    assert [Item("", false)][1..] == [];
  }

  lemma {:induction false} ReadableWords(ks: seq<Key>)
    requires Readable(ks)
    ensures Words(ks)
    decreases ks
  {
    hide KeyOf;
    forall k | k in ks
      ensures match k case Flag(_, name) => IsWord(name) case Group(_, inner) => Words(inner)
    {
      match k {
        case Flag(_, name) => if KeyOf(name).Some? { KeyNames(name); }
        case Group(_, inner) => ReadableWords(inner);
      }
    }
  }

  /** The entry of a message that is in, or out. */
  predicate Entry(result: map<int, int>, mid: int, kept: bool) { mid in result && result[mid] == if kept then 1 else 0 }

  lemma FlagEntry(table: seq<Message>, m: Message, name: string, any: bool, now: bool, kept: bool,
                  result: map<int, int>)
    requires KeyOf(name).Some? && DistinctMids(table) && m in table && Entry(result, m.mid, kept)
    ensures var (mask, wanted) := KeyOf(name).value;
            var holds := HasKey(m.status, name) != now;
            Entry(if any then Mark(table, mask, wanted != now, 1, result)
                  else Mark(table, mask, wanted == now, 0, result),
                  m.mid, if any then kept || holds else kept && holds)
  {
    hide KeyOf, Has, Mark;
    var (mask, wanted) := KeyOf(name).value;
    MarkOne(table, mask, wanted != now, 1, result, m);
    MarkOne(table, mask, wanted == now, 0, result, m);
  }

  lemma AllEntry(table: seq<Message>, m: Message, kept: bool, result: map<int, int>)
    requires DistinctMids(table) && m in table && Entry(result, m.mid, kept)
    ensures Entry(Mark(table, 0, true, 1, result), m.mid, true)
  {
    MarkOne(table, 0, true, 1, result, m);
    HasNothing(m.status);
  }

  lemma NoItems(table: seq<Message>, any: bool, neg: bool, result: map<int, int>, bound: nat)
    ensures Eval(table, [], RelationOf(any), neg, result, bound) == result
  {
  }

  lemma ItemsStep(ks: seq<Key>, bound: nat)
    requires ks != [] && Bounded(ItemsOf(ks), bound)
    ensures var it, later := LastItem(ks[0]), ItemsOf(ks[1..]);
            && ItemsOf(ks) == NotItems(ks[0].nots) + ([it] + later)
            && Bounded([it] + later, bound) && Bounded(later, bound) && (it.deep ==> |it.text| < bound)
  {
    hide LastItem, NotItems;
    var it, later := LastItem(ks[0]), ItemsOf(ks[1..]);
    assert ItemsOf(ks) == NotItems(ks[0].nots) + ([it] + later);
    hide ItemsOf;
    assert forall x | x in [it] + later :: x in NotItems(ks[0].nots) + ([it] + later);
    assert it in [it] + later && forall x | x in later :: x in [it] + later;
  }

  lemma ReadableStep(ks: seq<Key>)
    requires ks != [] && Readable(ks)
    ensures Readable(ks[1..])
    ensures match ks[0]
            case Flag(_, name) => (KeyOf(name).Some? || name == "ALL" || name == "OR")
            case Group(_, inner) => Readable(inner)
  {
    hide KeyOf;
    assert ks[0] in ks && forall x | x in ks[1..] :: x in ks;
  }

  /** One word: where it leaves the evaluation, the entry and the verdict. */
  lemma FlagStep(table: seq<Message>, m: Message, k: Key, more: seq<Key>, any: bool, neg: bool, kept: bool,
                 result: map<int, int>, bound: nat)
    returns (any': bool, neg': bool, kept': bool, result': map<int, int>)
    requires k.Flag? && (KeyOf(k.name).Some? || k.name == "ALL" || k.name == "OR")
    requires DistinctMids(table) && m in table && Entry(result, m.mid, kept) && Bounded(ItemsOf(more), bound)
    ensures Entry(result', m.mid, kept')
    ensures Eval(table, [LastItem(k)] + ItemsOf(more), RelationOf(any), neg || k.nots > 0, result, bound)
            == Eval(table, ItemsOf(more), RelationOf(any'), neg', result', bound)
    ensures Verdict(m.status, [k] + more, any, neg, kept) == Verdict(m.status, more, any', neg', kept')
  {
    hide Eval, KeyOf, Mark, Has, HasKey, RelationOf, Entry, Bounded, ItemsOf;
    var now, later := neg || k.nots > 0, ItemsOf(more);
    assert ([k] + more)[1..] == more;
    if k.name == "ALL" {
      EvalWords(table, later, any, now, result, bound);
      AllEntry(table, m, kept, result);
      any', neg', kept', result' := any, now, true, Mark(table, 0, true, 1, result);
    } else if k.name == "OR" {
      EvalWords(table, later, any, now, result, bound);
      any', neg', kept', result' := true, now, kept, result;
    } else {
      var (mask, wanted) := KeyOf(k.name).value;
      EvalFlag(table, k.name, later, any, now, result, bound);
      FlagEntry(table, m, k.name, any, now, kept, result);
      var holds := HasKey(m.status, k.name) != now;
      any', neg', kept' := any, false, if any then kept || holds else kept && holds;
      result' := if any then Mark(table, mask, wanted != now, 1, result)
                 else Mark(table, mask, wanted == now, 0, result);
    }
  }

  /** The items of any query do to the entry of a message what the verdict says. */
  lemma {:induction false} EvalKeys(table: seq<Message>, m: Message, ks: seq<Key>, any: bool, neg: bool, kept: bool,
                                    result: map<int, int>, bound: nat)
    requires Readable(ks) && DistinctMids(table) && m in table && Entry(result, m.mid, kept)
    requires Bounded(ItemsOf(ks), bound)
    ensures Entry(Eval(table, ItemsOf(ks), RelationOf(any), neg, result, bound), m.mid,
                  Verdict(m.status, ks, any, neg, kept))
    decreases ks, 0
  {
    hide Eval, KeyOf, HasKey, RelationOf, Entry, Bounded;
    if ks == [] {
      NoItems(table, any, neg, result, bound);
    } else {
      var k, more := ks[0], ks[1..];
      var now, it, later := neg || k.nots > 0, LastItem(k), ItemsOf(more);
      ItemsStep(ks, bound);
      ReadableStep(ks);
      hide ItemsOf, Readable, NotItems;
      EvalNots(table, k.nots, [it] + later, any, neg, result, bound);
      if k.Flag? {
        hide Verdict, LastItem;
        assert ks == [k] + more;
        var any', neg', kept', result' := FlagStep(table, m, k, more, any, neg, kept, result, bound);
        EvalKeys(table, m, more, any', neg', kept', result', bound);
      } else {
        EvalGroup(table, it.text, later, any, now, result, bound);
        SearchedKeys(table, m, k.keys, kept, result);
        EvalKeys(table, m, more, any, now, Verdict(m.status, k.keys, false, false, kept),
                 SubSearched(table, it.text, result), bound);
      }
    }
  }

  /** The same for the text of the query. */
  lemma {:induction false} SearchedKeys(table: seq<Message>, m: Message, ks: seq<Key>, kept: bool,
                                        result: map<int, int>)
    requires Readable(ks) && DistinctMids(table) && m in table && Entry(result, m.mid, kept)
    ensures Entry(SubSearched(table, Render(ks), result), m.mid, Verdict(m.status, ks, false, false, kept))
    decreases ks, 1
  {
    hide Eval, KeyOf, Has, Entry, Words;
    ReadableWords(ks);
    ParseRender(ks);
    if ks == [] {
      EvalNothing(table, result);
    } else {
      EvalKeys(table, m, ks, false, false, kept, result, |Render(ks)|);
    }
  }

  /** SEARCH reports a message exactly when the verdict on it is so, for every query the code knows. */
  lemma SearchVerdict(table: seq<Message>, ks: seq<Key>, m: Message)
    requires Readable(ks) && DistinctMids(table) && m in table
    ensures m.mid in Hits(table, Render(ks)) <==> Verdict(m.status, ks, false, false, true)
  {
    hide SubSearched, KeyOf, Verdict;
    SearchedKeys(table, m, ks, true, AllAtOne(table));
  }

  // ---- queries without OR and ALL ----

  lemma {:induction false} KnownIsReadable(ks: seq<Key>)
    requires KnownKeys(ks)
    ensures Readable(ks)
    decreases ks
  {
    hide KeyOf;
    forall k | k in ks && k.Group?
      ensures Readable(k.keys)
    {
      KnownIsReadable(k.keys);
    }
  }

  /** Whether a NOT is left over behind the keys. */
  function Trailing(ks: seq<Key>, carry: bool): bool {
    if ks == [] then carry else Trailing(ks[1..], ks[0].Group? && (carry || ks[0].nots > 0))
  }

  /** There the verdict is the sliding reading. */
  lemma {:induction false} VerdictSlides(status: bv32, ks: seq<Key>, more: seq<Key>, neg: bool, kept: bool)
    requires KnownKeys(ks)
    ensures Verdict(status, ks + more, false, neg, kept)
            == Verdict(status, more, false, Trailing(ks, neg), kept && Sliding(status, ks, neg))
    decreases ks
  {
    hide KeyOf, HasKey;
    if ks == [] {
      assert ks + more == more;
    } else {
      var k, rest := ks[0], ks[1..];
      assert k in ks && forall x | x in rest :: x in ks;
      assert (ks + more)[0] == k && (ks + more)[1..] == rest + more;
      var now := neg || k.nots > 0;
      match k {
        case Flag(_, name) =>
          KeyNames(name);
          VerdictSlides(status, rest, more, false, kept && HasKey(status, name) != now);
        case Group(_, inner) =>
          assert inner + [] == inner;
          VerdictSlides(status, inner, [], false, kept);
          VerdictSlides(status, rest, more, now, kept && Sliding(status, inner, false));
      }
    }
  }

  /** SEARCH reports a message exactly when the sliding reading holds of it; with mids that are all
      different, for every query of status keys, NOTs and groups. */
  lemma SearchSlides(table: seq<Message>, ks: seq<Key>, m: Message)
    requires KnownKeys(ks) && DistinctMids(table) && m in table
    ensures m.mid in Hits(table, Render(ks)) <==> Sliding(m.status, ks, false)
  {
    hide Hits, KeyOf, Sliding, Render;
    KnownIsReadable(ks);
    SearchVerdict(table, ks, m);
    VerdictSlides(m.status, ks, [], false, true);
    assert ks + [] == ks;
  }

  /** For plain queries that is what RFC 3501 asks: the conjunction of the keys. */
  lemma SearchMeans(table: seq<Message>, ks: seq<Key>, m: Message)
    requires KnownKeys(ks) && DistinctMids(table) && m in table && Plain(ks, false)
    ensures m.mid in Hits(table, Render(ks)) <==> Meant(m.status, ks)
  {
    SearchSlides(table, ks, m);
    PlainIsMeant(m.status, ks, false);
  }

  /** For all others, no message that is reported was asked for, and none that was asked for is
      reported. */
  lemma SearchErs(table: seq<Message>, ks: seq<Key>, m: Message)
    requires KnownKeys(ks) && DistinctMids(table) && m in table && OnceWrong(ks) && !Plain(ks, false)
    ensures !(m.mid in Hits(table, Render(ks)) && Meant(m.status, ks))
  {
    hide Hits, Render, Sliding, Meant, Plain, OnceWrong, KnownKeys;
    SearchSlides(table, ks, m);
    NotPlainIsWrong(m.status, ks, false);
  }

  /** NOT before a group is not heeded: the answer is that of the group itself, so it is wrong for
      every message. */
  lemma NegatedGroup(table: seq<Message>, inner: seq<Key>, m: Message)
    requires KnownKeys(inner) && DistinctMids(table) && m in table && Plain(inner, false)
    ensures m.mid in Hits(table, Render([Group(1, inner)])) <==> !Meant(m.status, [Group(1, inner)])
  {
    var k := Group(1, inner);
    SearchSlides(table, [k], m);
    OneKey(m.status, k);
  }

  lemma EvalUnknown(table: seq<Message>, name: string, result: map<int, int>, bound: nat)
    requires KeyOf(name).None? && name != "ALL" && name != "NOT" && name != "OR"
    ensures Eval(table, [Item(name, false)], ANDing, false, result, bound) == result
  {
    assert [Item(name, false)][1..] == [];
    hide KeyOf;
  }

  /** A word that the code does not know is passed over. */
  lemma UnknownWord(table: seq<Message>, name: string, m: Message)
    requires m in table && forall i | 0 <= i < |name| :: Ordinary(name[i])
    requires KeyOf(name).None? && name != "ALL" && name != "NOT" && name != "OR"
    ensures m.mid in Hits(table, name)
  {
    RunOrdinary(Start([]), name, "");
    hide Run, Mark, KeyOf, Ordinary, Eval;
    assert name + "" == name && "" + name == name;
    RunEnd(Start([]).(cell := name));
    assert [] + [Item(name, false)] == [Item(name, false)];
    EvalUnknown(table, name, AllAtOne(table), |name|);
  }

  /** UNDRAFT is a key of RFC 3501, but not one of the code's. */
  lemma UndraftIsIgnored(table: seq<Message>, m: Message)
    requires m in table
    ensures m.mid in Hits(table, "UNDRAFT")
  {
    hide Hits;
    UnknownWord(table, "UNDRAFT", m);
  }

  /** RECENT and OLD are compared by address in the source, and so never met. */
  lemma RecentAndOldAreIgnored(table: seq<Message>, m: Message)
    requires m in table
    ensures m.mid in Hits(table, "RECENT") && m.mid in Hits(table, "OLD")
  {
    hide Hits;
    UnknownWord(table, "RECENT", m);
    UnknownWord(table, "OLD", m);
  }

  // ---- the keys one by one ----

  lemma OneStatusKey(table: seq<Message>, name: string, m: Message)
    requires KeyOf(name).Some? && DistinctMids(table) && m in table
    ensures m.mid in Hits(table, name) <==> HasKey(m.status, name)
  {
    var k := Flag(0, name);
    assert [k][1..] == [] && "" + name == name && name + "" == name;
    assert Render([k]) == name;
    SearchSlides(table, [k], m);
    hide Hits, KeyOf, HasKey;
  }

  lemma BitClear(status: bv32)
    ensures status & 1 == 0 <==> status & 1 != 1
    ensures status & 2 == 0 <==> status & 2 != 2
    ensures status & 4 == 0 <==> status & 4 != 4
    ensures status & 8 == 0 <==> status & 8 != 8
  {
  }

  /** The nine status keys, by the bits of src/storage.h. */
  lemma StatusKeys(table: seq<Message>, m: Message)
    requires DistinctMids(table) && m in table
    ensures m.mid in Hits(table, "SEEN") <==> m.status & 1 == 1
    ensures m.mid in Hits(table, "UNSEEN") <==> m.status & 1 == 0
    ensures m.mid in Hits(table, "ANSWERED") <==> m.status & 2 == 2
    ensures m.mid in Hits(table, "UNANSWERED") <==> m.status & 2 == 0
    ensures m.mid in Hits(table, "FLAGGED") <==> m.status & 4 == 4
    ensures m.mid in Hits(table, "UNFLAGGED") <==> m.status & 4 == 0
    ensures m.mid in Hits(table, "DELETED") <==> m.status & 8 == 8
    ensures m.mid in Hits(table, "UNDELETED") <==> m.status & 8 == 0
    ensures m.mid in Hits(table, "DRAFT") <==> m.status & 16 == 16
  {
    hide Hits;
    BitClear(m.status);
    OneStatusKey(table, "SEEN", m);
    OneStatusKey(table, "UNSEEN", m);
    OneStatusKey(table, "ANSWERED", m);
    OneStatusKey(table, "UNANSWERED", m);
    OneStatusKey(table, "FLAGGED", m);
    OneStatusKey(table, "UNFLAGGED", m);
    OneStatusKey(table, "DELETED", m);
    OneStatusKey(table, "UNDELETED", m);
    OneStatusKey(table, "DRAFT", m);
  }

  // ---- OR and ALL ----

  lemma {:induction false} ReadableMore(ks: seq<Key>, more: seq<Key>)
    requires Readable(ks) && Readable(more)
    ensures Readable(ks + more)
  {
  }

  lemma VerdictOr(status: bv32, a: string, b: string, neg: bool, kept: bool)
    requires KeyOf(a).Some? && KeyOf(b).Some?
    ensures Verdict(status, [Flag(0, "OR"), Flag(0, a), Flag(0, b)], false, neg, kept) <==>
            kept || HasKey(status, a) != neg || HasKey(status, b)
  {
    KeyNames(a);
    KeyNames(b);
    hide KeyOf, HasKey;
    var ks := [Flag(0, "OR"), Flag(0, a), Flag(0, b)];
    assert ks[1..] == [Flag(0, a), Flag(0, b)] && ks[1..][1..] == [Flag(0, b)] && [Flag(0, b)][1..] == [];
    var first := kept || HasKey(status, a) != neg;
    assert Verdict(status, [Flag(0, b)], true, false, first) == (first || HasKey(status, b));
    assert Verdict(status, ks[1..], true, neg, kept) == Verdict(status, [Flag(0, b)], true, false, first);
  }

  /** OR lets messages in that either of its keys, or the keys before it, let in, where RFC 3501 keeps those
      that the keys before it and one of the two let in. The answer is right exactly when both come to the
      same; at the start of a query OR lets every message in. */
  lemma OrIsUnion(table: seq<Message>, before: seq<Key>, a: string, b: string, m: Message)
    requires KnownKeys(before) && KeyOf(a).Some? && KeyOf(b).Some? && DistinctMids(table) && m in table
    ensures var reported := m.mid in Hits(table, Render(before + [Flag(0, "OR"), Flag(0, a), Flag(0, b)]));
            && (reported <==> Sliding(m.status, before, false)
                              || HasKey(m.status, a) != Trailing(before, false) || HasKey(m.status, b))
            && (Plain(before, false) && !Trailing(before, false) ==>
                  var either := HasKey(m.status, a) || HasKey(m.status, b);
                  (reported <==> Meant(m.status, before) && either) <==> (Meant(m.status, before) <==> either))
  {
    hide Hits, KeyOf, HasKey, Sliding, Render, Meant, Plain;
    var or := [Flag(0, "OR"), Flag(0, a), Flag(0, b)];
    KnownIsReadable(before);
    ReadableMore(before, or);
    SearchVerdict(table, before + or, m);
    VerdictSlides(m.status, before, or, false, true);
    VerdictOr(m.status, a, b, Trailing(before, false), Sliding(m.status, before, false));
    if Plain(before, false) {
      PlainIsMeant(m.status, before, false);
    }
  }

  lemma VerdictAll(status: bv32, neg: bool, kept: bool)
    ensures Verdict(status, [Flag(0, "ALL")], false, neg, kept)
  {
    assert [Flag(0, "ALL")][1..] == [];
  }

  /** ALL lets every message back in, whatever the keys before it have excluded. */
  lemma AllReadmits(table: seq<Message>, before: seq<Key>, m: Message)
    requires KnownKeys(before) && DistinctMids(table) && m in table
    ensures m.mid in Hits(table, Render(before + [Flag(0, "ALL")]))
  {
    hide Hits, KeyOf, HasKey, Sliding, Render;
    KnownIsReadable(before);
    ReadableMore(before, [Flag(0, "ALL")]);
    SearchVerdict(table, before + [Flag(0, "ALL")], m);
    VerdictSlides(m.status, before, [Flag(0, "ALL")], false, true);
    VerdictAll(m.status, Trailing(before, false), Sliding(m.status, before, false));
  }
}
