/** IMAP SEARCH: the cutting of a query into items and its evaluation (src/imap.cpp); RFC 3501
    section 6.4.4. */
module Search {
  import opened Text
  import opened Mailbox

  // ---- cutting ----

  datatype Item = Item(text: string, deep: bool)

  /** nBracket, inSemicolon, isTransferred, isDeep, strCell, vDst. */
  datatype State = State(bracket: int, quoted: bool, escaped: bool, deep: bool, cell: string, items: seq<Item>)

  function Start(items: seq<Item>): State { State(0, false, false, false, "", items) }

  function Pushed(st: State): State { Start(st.items + [Item(st.cell, st.deep)]) }

  /** One 7-bit character, or any character after a backslash. */
  function Step(st: State, c: char): State {
    if st.escaped then st.(cell := st.cell + [c], escaped := false)
    else if (c == ' ' || c == '\n') && !st.quoted && st.bracket == 0 then Pushed(st)
    else if c == '\r' then st
    else if c == '\\' then st.(escaped := true)
    else if c == '"' then st.(cell := st.cell + [c], quoted := if st.bracket == 0 then !st.quoted else st.quoted)
    else if c == '(' && !st.quoted then
      if st.bracket > 0 then st.(cell := st.cell + [c], bracket := st.bracket + 1)
      else st.(deep := true, bracket := st.bracket + 1)
    else if c == ')' && !st.quoted then
      if st.bracket > 1 then st.(cell := st.cell + [c], bracket := st.bracket - 1)
      else st.(bracket := st.bracket - 1)
    else st.(cell := st.cell + [c])
  }

  /** The items of the text that is left. A byte above 0x7F takes the next one with it; at the very
      end it takes the terminator, and the last item is lost, as after an open quote or bracket. */
  function Run(st: State, text: string): seq<Item>
    decreases |text|
  {
    if text == "" then
      if !st.escaped && !st.quoted && st.bracket == 0 then Pushed(st).items else st.items
    else if !st.escaped && text[0] as int > 0x7F then
      if |text| == 1 then st.items else Run(st.(cell := st.cell + text[..2]), text[2..])
    else Run(Step(st, text[0]), text[1..])
  }

  lemma {:induction false} DeepIsShorter(st: State, text: string, n: nat)
    requires |st.cell| + (if st.deep then 1 else 0) <= n
    requires forall it | it in st.items :: it.deep ==> |it.text| < n + |text|
    ensures forall it | it in Run(st, text) :: it.deep ==> |it.text| < n + |text|
    decreases |text|
  {
    if text != "" {
      if !st.escaped && text[0] as int > 0x7F {
        if |text| > 1 {
          DeepIsShorter(st.(cell := st.cell + text[..2]), text[2..], n + 2);
        }
      } else {
        DeepIsShorter(Step(st, text[0]), text[1..], n + 1);
      }
    }
  }

  lemma {:induction false} NoNul(st: State, text: string)
    requires '\0' !in text && '\0' !in st.cell && forall it | it in st.items :: '\0' !in it.text
    ensures forall it | it in Run(st, text) :: '\0' !in it.text
    decreases |text|
  {
    if text != "" {
      assert forall c | c in text[1..] :: c in text;
      if !st.escaped && text[0] as int > 0x7F {
        if |text| > 1 {
          NoNul(st.(cell := st.cell + text[..2]), text[2..]);
        }
      } else {
        NoNul(Step(st, text[0]), text[1..]);
      }
    }
  }

  function Parse(text: string): (items: seq<Item>)
    ensures forall it | it in items :: it.deep ==> |it.text| < |text|
    ensures '\0' !in text ==> forall it | it in items :: '\0' !in it.text
  {
    DeepIsShorter(Start([]), text, 0);
    if '\0' !in text then
      NoNul(Start([]), text);
      Run(Start([]), text)
    else Run(Start([]), text)
  }

  /** ParseSearch as it runs, over the text and its terminator. */
  method ParseSearch(text: string) returns (items: seq<Item>)
    requires '\0' !in text
    ensures items == Parse(text)
  {
    var sLen, nBracket, inSemicolon, isTransferred, isDeep, strCell := |text|, 0, false, false, false, "";
    items := [];
    var i := 0;
    while i <= sLen
      invariant 0 <= i <= sLen + 1
      invariant if i <= sLen then
                  Run(State(nBracket, inSemicolon, isTransferred, isDeep, strCell, items), text[i..]) == Parse(text)
                else items == Parse(text)
    {
      var c := if i < sLen then text[i] else '\0';
      assert i < sLen ==> text[i..][0] == c && text[i..][1..] == text[i + 1..];
      assert i + 1 < sLen ==> text[i..][..2] == text[i..i + 2] && text[i..][2..] == text[i + 2..];
      if isTransferred {
        strCell := strCell + if c == '\0' then "" else [c];
        isTransferred := false;
      } else if c as int > 0x7F {
        strCell := strCell + if i + 1 < sLen then text[i..i + 2] else [c];
        i := i + 1;
      } else if (c == ' ' || c == '\n' || c == '\0') && !inSemicolon && nBracket == 0 {
        items := items + [Item(strCell, isDeep)];
        strCell, isDeep := "", false;
        if c == '\0' {
          break;
        }
      } else if c == '\r' {
      } else if c == '\\' {
        isTransferred := true;
      } else if c == '"' {
        strCell := strCell + [c];
        if nBracket == 0 {
          inSemicolon := !inSemicolon;
        }
      } else if c == '(' && !inSemicolon {
        if nBracket > 0 {
          strCell := strCell + [c];
        } else {
          isDeep := true;
        }
        nBracket := nBracket + 1;
      } else if c == ')' && !inSemicolon {
        nBracket := nBracket - 1;
        if nBracket > 0 {
          strCell := strCell + [c];
        }
      } else {
        strCell := strCell + if c == '\0' then "" else [c];
      }
      i := i + 1;
    }
  }

  // ---- evaluation ----

  datatype Relation = ANDing | ORing

  /** The status keys: which attribute, and whether it is asked to be set. There is no UNDRAFT. */
  function KeyOf(name: string): Option<(bv32, bool)> {
    if name == "ANSWERED" then Some((ANSWERED, true))
    else if name == "DELETED" then Some((DELETED, true))
    else if name == "DRAFT" then Some((DRAFT, true))
    else if name == "FLAGGED" then Some((FLAGGED, true))
    else if name == "SEEN" then Some((SEEN, true))
    else if name == "UNANSWERED" then Some((ANSWERED, false))
    else if name == "UNDELETED" then Some((DELETED, false))
    else if name == "UNFLAGGED" then Some((FLAGGED, false))
    else if name == "UNSEEN" then Some((SEEN, false))
    else None
  }

  /** Items that look into letters, dates or sizes; they are not modelled. */
  const OTHER_KEYS := {"BCC", "BEFORE", "BODY", "CC", "SUBJECT", "HEADER", "KEYWORD", "LARGER", "NEW", "ON",
                       "SENTBEFORE", "SENTON", "SENTSINCE", "SINCE", "SMALLER", "FROM", "TEXT", "TO", "UID",
                       "UNKEYWORD"}

  ghost predicate Supported(text: string)
    decreases |text|
  {
    forall it | it in Parse(text) :: if it.deep then Supported(it.text) else it.text !in OTHER_KEYS
  }

  /** One loop over the table: `value` for each message whose attribute is as said. */
  function Mark(table: seq<Message>, mask: bv32, present: bool, value: int, result: map<int, int>): map<int, int>
    decreases |table|
  {
    if table == [] then result
    else
      var m := table[0];
      Mark(table[1..], mask, present, value, if Has(m.status, mask) == present then result[m.mid := value] else result)
  }

  method MarkLoop(table: seq<Message>, mask: bv32, present: bool, value: int, result: map<int, int>)
    returns (r: map<int, int>)
    ensures r == Mark(table, mask, present, value, result)
  {
    r := result;
    for y := 0 to |table|
      invariant Mark(table[y..], mask, present, value, r) == Mark(table, mask, present, value, result)
    {
      assert table[y..][1..] == table[y + 1..];
      if Has(table[y].status, mask) == present {
        r := r[table[y].mid := value];
      }
    }
  }

  /** SubSearch from some item on. `bound` limits the length of the deep items. */
  function Eval(table: seq<Message>, items: seq<Item>, relation: Relation, isNot: bool, result: map<int, int>,
                ghost bound: nat): map<int, int>
    requires forall it | it in items :: it.deep ==> |it.text| < bound
    decreases bound, 0, |items|
  {
    if items == [] then result
    else
      var it, rest := items[0], items[1..];
      if it.deep then Eval(table, rest, relation, isNot, SubSearched(table, it.text, result), bound)
      else if it.text == "ALL" then Eval(table, rest, relation, isNot, Mark(table, 0, true, 1, result), bound)
      else if it.text == "NOT" then Eval(table, rest, relation, true, result, bound)
      else if it.text == "OR" then Eval(table, rest, ORing, isNot, result, bound)
      else
        match KeyOf(it.text)
        case None => Eval(table, rest, relation, isNot, result, bound)
        case Some((mask, wanted)) =>
          var marked := if relation == ORing then Mark(table, mask, wanted != isNot, 1, result)
                        else Mark(table, mask, wanted == isNot, 0, result);
          Eval(table, rest, relation, false, marked, bound)
  }

  function SubSearched(table: seq<Message>, text: string, result: map<int, int>): map<int, int>
    decreases |text|, 1, 0
  {
    Eval(table, Parse(text), ANDing, false, result, |text|)
  }

  /** SubSearch as it runs. It ends on every text, a deep item being shorter than its source. */
  method SubSearch(table: seq<Message>, text: string, result: map<int, int>) returns (r: map<int, int>)
    requires '\0' !in text && Supported(text)
    ensures r == SubSearched(table, text, result)
    decreases |text|
  {
    var eSearchRelation, bIsNot := ANDing, false;
    var vItem := ParseSearch(text);
    r := result;
    for i := 0 to |vItem|
      invariant Eval(table, vItem[i..], eSearchRelation, bIsNot, r, |text|) == SubSearched(table, text, result)
    {
      var it := vItem[i];
      assert vItem[i..][1..] == vItem[i + 1..];
      if it.deep {
        r := SubSearch(table, it.text, r);
      } else if it.text == "ALL" {
        r := MarkLoop(table, 0, true, 1, r);
      } else if it.text == "NOT" {
        bIsNot := true;
      } else if it.text == "OR" {
        eSearchRelation := ORing;
      } else if KeyOf(it.text).Some? {
        var (mask, wanted) := KeyOf(it.text).value;
        if eSearchRelation == ORing {
          if bIsNot {
            r := MarkLoop(table, mask, !wanted, 1, r);
            bIsNot := false;
          } else {
            r := MarkLoop(table, mask, wanted, 1, r);
          }
        } else {
          if bIsNot {
            r := MarkLoop(table, mask, wanted, 0, r);
            bIsNot := false;
          } else {
            r := MarkLoop(table, mask, !wanted, 0, r);
          }
        }
      }
    }
  }

  /** Every message at 1. */
  function AllAtOne(table: seq<Message>): (r: map<int, int>)
    ensures forall m | m in table :: m.mid in r
    ensures forall mid | mid in r :: r[mid] == 1
  {
    if table == [] then map[] else AllAtOne(table[..|table| - 1])[table[|table| - 1].mid := 1]
  }

  function Hits(table: seq<Message>, text: string): set<int> {
    var r := SubSearched(table, text, AllAtOne(table));
    set mid | mid in r && r[mid] == 1
  }

  /** SEARCH: the mids that are reported. */
  method Search(table: seq<Message>, text: string) returns (hits: set<int>)
    requires '\0' !in text && Supported(text)
    ensures hits == Hits(table, text)
  {
    var r: map<int, int> := map[];
    for x := 0 to |table|
      invariant r == AllAtOne(table[..x])
    {
      assert table[..x + 1][..x] == table[..x];
      r := r[table[x].mid := 1];
    }
    assert table[..|table|] == table;
    r := SubSearch(table, text, r);
    hits := set mid | mid in r && r[mid] == 1;
  }

  // ---- queries ----

  /** A search key under some number of NOTs. */
  datatype Key = Flag(nots: nat, name: string) | Group(nots: nat, keys: seq<Key>)

  predicate KnownKeys(ks: seq<Key>) {
    forall k | k in ks :: match k case Flag(_, name) => KeyOf(name).Some? case Group(_, inner) => KnownKeys(inner)
  }

  function Nots(n: nat): string {
    if n == 0 then "" else "NOT " + Nots(n - 1)
  }

  function RenderKey(k: Key): string
    decreases k, 1
  {
    Nots(k.nots) + match k case Flag(_, name) => name case Group(_, inner) => "(" + Render(inner) + ")"
  }

  function Render(ks: seq<Key>): string
    decreases ks, 0
  {
    if ks == [] then "" else RenderKey(ks[0]) + if |ks| == 1 then "" else " " + Render(ks[1..])
  }

  function NotItems(n: nat): (items: seq<Item>)
    ensures forall it | it in items :: !it.deep
  {
    if n == 0 then [] else [Item("NOT", false)] + NotItems(n - 1)
  }

  function LastItem(k: Key): Item {
    match k case Flag(_, name) => Item(name, false) case Group(_, inner) => Item(Render(inner), true)
  }

  function ItemsOf(ks: seq<Key>): seq<Item> {
    if ks == [] then [] else NotItems(ks[0].nots) + [LastItem(ks[0])] + ItemsOf(ks[1..])
  }

  predicate HasKey(status: bv32, name: string) {
    match KeyOf(name) case None => true case Some((mask, wanted)) => Has(status, mask) == wanted
  }

  /** What RFC 3501 says a query means for a message. */
  predicate Meant(status: bv32, ks: seq<Key>)
    decreases ks
  {
    ks == [] || (MeantKey(status, ks[0]) && Meant(status, ks[1..]))
  }

  predicate MeantKey(status: bv32, k: Key)
    decreases k
  {
    var plain := match k case Flag(_, name) => HasKey(status, name) case Group(_, inner) => Meant(status, inner);
    plain != (k.nots % 2 == 1)
  }

  /** What the code makes of it: any number of NOTs negates once, and does so at the next status key,
      whatever groups stand between. */
  predicate Sliding(status: bv32, ks: seq<Key>, carry: bool)
    decreases ks
  {
    ks == [] ||
    match ks[0]
    case Flag(n, name) => HasKey(status, name) != (carry || n > 0) && Sliding(status, ks[1..], false)
    case Group(n, inner) => Sliding(status, inner, false) && Sliding(status, ks[1..], carry || n > 0)
  }

  /** Every key is read with its own sign: no group is negated an odd number of times, and a status
      key is negated, by its own NOTs or by those left over from groups before it, exactly when the number
      of its own is odd. */
  predicate Plain(ks: seq<Key>, carry: bool)
    decreases ks
  {
    ks == [] ||
    match ks[0]
    case Flag(n, _) => (carry || n > 0) == (n % 2 == 1) && Plain(ks[1..], false)
    case Group(n, inner) => n % 2 == 0 && Plain(inner, false) && Plain(ks[1..], carry || n > 0)
  }

  lemma {:induction false} PlainIsMeant(status: bv32, ks: seq<Key>, carry: bool)
    requires Plain(ks, carry)
    ensures Sliding(status, ks, carry) == Meant(status, ks)
    decreases ks
  {
    if ks != [] {
      match ks[0] {
        case Flag(_, _) => PlainIsMeant(status, ks[1..], false);
        case Group(n, inner) =>
          PlainIsMeant(status, inner, false);
          PlainIsMeant(status, ks[1..], carry || n > 0);
      }
    }
  }

  /** A group negated an odd number of times holds a plain query, so that its two mistakes cannot
      cancel. */
  predicate OnceWrong(ks: seq<Key>) {
    forall k | k in ks && k.Group? :: OnceWrong(k.keys) && (k.nots % 2 == 1 ==> Plain(k.keys, false))
  }

  /** A query that is not plain is answered wrong: no message is both reported and asked for. */
  lemma {:induction false} NotPlainIsWrong(status: bv32, ks: seq<Key>, carry: bool)
    requires OnceWrong(ks) && !Plain(ks, carry)
    ensures !(Sliding(status, ks, carry) && Meant(status, ks))
    decreases ks
  {
    var k, more := ks[0], ks[1..];
    assert k in ks && forall x | x in more :: x in ks;
    match k {
      case Flag(_, _) =>
        if !Plain(more, false) {
          NotPlainIsWrong(status, more, false);
        }
      case Group(n, inner) =>
        if n % 2 == 1 {
          PlainIsMeant(status, inner, false);
        } else if !Plain(inner, false) {
          NotPlainIsWrong(status, inner, false);
        } else {
          NotPlainIsWrong(status, more, carry || n > 0);
        }
    }
  }

  /** The code reads a query right for every status if and only if the query is plain, or no status
      satisfies either reading. */
  lemma RightIffPlain(ks: seq<Key>)
    requires OnceWrong(ks)
    ensures (forall s :: Sliding(s, ks, false) == Meant(s, ks)) <==>
            Plain(ks, false) || forall s :: !Sliding(s, ks, false) && !Meant(s, ks)
  {
    hide Sliding, Meant, OnceWrong, Plain;
    forall s
      ensures Plain(ks, false) ==> Sliding(s, ks, false) == Meant(s, ks)
      ensures !Plain(ks, false) ==> !(Sliding(s, ks, false) && Meant(s, ks))
    {
      if Plain(ks, false) {
        PlainIsMeant(s, ks, false);
      } else {
        NotPlainIsWrong(s, ks, false);
      }
    }
  }

  /** For a single key the code is right, message by message, exactly under these counts of NOT:
      none or odd for a status key, even for a group. */
  lemma OneKey(status: bv32, k: Key)
    requires k.Group? ==> Plain(k.keys, false)
    ensures Sliding(status, [k], false) == Meant(status, [k])
            <==> if k.Flag? then k.nots == 0 || k.nots % 2 == 1 else k.nots % 2 == 0
  {
    assert [k][1..] == [];
    if k.Group? {
      PlainIsMeant(status, k.keys, false);
    }
  }

  // ---- a rendered query is cut into its items ----

  predicate Ordinary(c: char) {
    c as int <= 0x7F && c != ' ' && c != '\n' && c != '\r' && c != '\\' && c != '"' && c != '(' && c != ')'
  }

  lemma KeyNames(name: string)
    requires KeyOf(name).Some?
    ensures forall i | 0 <= i < |name| :: Ordinary(name[i])
    ensures name !in OTHER_KEYS && name != "ALL" && name != "NOT" && name != "OR"
  {
  }

  predicate IsWord(name: string) { forall i | 0 <= i < |name| :: Ordinary(name[i]) }

  /** The names in the query have no character that means anything to the cutting. */
  predicate Words(ks: seq<Key>) {
    forall k | k in ks :: match k case Flag(_, name) => IsWord(name) case Group(_, inner) => Words(inner)
  }

  lemma {:induction false} KnownAreWords(ks: seq<Key>)
    requires KnownKeys(ks)
    ensures Words(ks)
    decreases ks
  {
    hide KeyOf;
    forall k | k in ks
      ensures match k case Flag(_, name) => IsWord(name) case Group(_, inner) => Words(inner)
    {
      match k {
        case Flag(_, name) => KeyNames(name);
        case Group(_, inner) => KnownAreWords(inner);
      }
    }
  }

  lemma {:induction false} RunOrdinary(st: State, name: string, rest: string)
    requires !st.escaped && forall i | 0 <= i < |name| :: Ordinary(name[i])
    ensures Run(st, name + rest) == Run(st.(cell := st.cell + name), rest)
    decreases |name|
  {
    if name == "" {
      assert "" + rest == rest && st.cell + "" == st.cell;
    } else {
      assert (name + rest)[1..] == name[1..] + rest;
      RunOrdinary(Step(st, name[0]), name[1..], rest);
      assert st.cell + [name[0]] + name[1..] == st.cell + name;
    }
  }

  lemma NotsSplit(n: nat, rest: string)
    requires n > 0
    ensures Nots(n) + rest == "NOT" + ([' '] + (Nots(n - 1) + rest))
    ensures Nots(n) == "NOT" + [' '] + Nots(n - 1)
    ensures forall i | 0 <= i < |"NOT"| :: Ordinary("NOT"[i])
  {
    assert "NOT " == "NOT" + [' '];
  }

  lemma RunOne(st: State, c: char, rest: string)
    requires !st.escaped && c as int <= 0x7F
    ensures Run(st, [c] + rest) == Run(Step(st, c), rest)
  {
    assert ([c] + rest)[1..] == rest;
  }

  /** Inside a bracket the text of a query is kept as it is. */
  lemma {:induction false} RunNots(st: State, n: nat, rest: string)
    requires st.bracket > 0 && !st.escaped && !st.quoted
    ensures Run(st, Nots(n) + rest) == Run(st.(cell := st.cell + Nots(n)), rest)
    decreases n
  {
    hide Run;
    if n == 0 {
      assert "" + rest == rest && st.cell + "" == st.cell;
    } else {
      var more := Nots(n - 1);
      NotsSplit(n, rest);
      RunOrdinary(st, "NOT", [' '] + (more + rest));
      var st' := st.(cell := st.cell + "NOT");
      RunOne(st', ' ', more + rest);
      RunNots(st'.(cell := st'.cell + [' ']), n - 1, rest);
      assert st.cell + "NOT" + [' '] + more == st.cell + Nots(n);
    }
  }

  function Tail(ks: seq<Key>): string
    requires ks != []
  {
    if |ks| == 1 then "" else " " + Render(ks[1..])
  }

  lemma RenderSplit(ks: seq<Key>, cell: string, rest: string)
    requires ks != []
    ensures Render(ks) + rest == RenderKey(ks[0]) + (Tail(ks) + rest)
    ensures |ks| == 1 ==> Tail(ks) + rest == rest && cell + RenderKey(ks[0]) == cell + Render(ks)
    ensures |ks| > 1 ==> Tail(ks) + rest == [' '] + (Render(ks[1..]) + rest)
                         && cell + RenderKey(ks[0]) + [' '] + Render(ks[1..]) == cell + Render(ks)
  {
    hide RenderKey;
    var key, tail := RenderKey(ks[0]), Tail(ks);
    Assoc(key, tail, rest);
    Assoc(cell, key, tail);
    if |ks| == 1 {
      assert tail + rest == rest && cell + key + tail == cell + key;
    } else {
      assert tail == [' '] + Render(ks[1..]);
      Assoc([' '], Render(ks[1..]), rest);
      Assoc(cell + key, [' '], Render(ks[1..]));
    }
  }

  lemma GroupSplit(k: Key, cell: string, rest: string)
    requires k.Group?
    ensures var tail := Render(k.keys) + ([')'] + rest);
            RenderKey(k) + rest == Nots(k.nots) + (['('] + tail)
    ensures cell + Nots(k.nots) + ['('] + Render(k.keys) + [')'] == cell + RenderKey(k)
  {
    hide Nots, Render;
    assert "(" == ['('] && ")" == [')'];
  }

  lemma FlagSplit(k: Key, cell: string, rest: string)
    requires k.Flag?
    ensures RenderKey(k) + rest == Nots(k.nots) + (k.name + rest)
    ensures cell + Nots(k.nots) + k.name == cell + RenderKey(k)
  {
    hide Nots;
  }

  lemma {:induction false} RunInside(st: State, ks: seq<Key>, rest: string)
    requires st.bracket > 0 && !st.escaped && !st.quoted && Words(ks)
    ensures Run(st, Render(ks) + rest) == Run(st.(cell := st.cell + Render(ks)), rest)
    decreases ks, 0
  {
    hide Run, KeyOf, Ordinary, RenderKey;
    if ks == [] {
      assert "" + rest == rest && st.cell + "" == st.cell;
    } else {
      hide Render, Tail;
      var k, more := ks[0], ks[1..];
      assert k in ks && forall x | x in more :: x in ks;
      RenderSplit(ks, st.cell, rest);
      RunInsideKey(st, k, Tail(ks) + rest);
      if |ks| > 1 {
        var st' := st.(cell := st.cell + RenderKey(k));
        RunOne(st', ' ', Render(more) + rest);
        RunInside(st'.(cell := st'.cell + [' ']), more, rest);
      }
    }
  }

  lemma {:induction false} RunInsideKey(st: State, k: Key, rest: string)
    requires st.bracket > 0 && !st.escaped && !st.quoted && Words([k])
    ensures Run(st, RenderKey(k) + rest) == Run(st.(cell := st.cell + RenderKey(k)), rest)
    decreases k, 1
  {
    hide Run, KeyOf, Ordinary, RenderKey, Render, Nots;
    assert k in [k];
    var st' := st.(cell := st.cell + Nots(k.nots));
    match k {
      case Flag(n, name) =>
        FlagSplit(k, st.cell, rest);
        RunNots(st, n, name + rest);
        RunOrdinary(st', name, rest);
      case Group(n, inner) =>
        var tail := Render(inner) + ([')'] + rest);
        GroupSplit(k, st.cell, rest);
        RunNots(st, n, ['('] + tail);
        RunOne(st', '(', tail);
        var within := st'.(cell := st'.cell + ['('], bracket := st.bracket + 1);
        RunInside(within, inner, [')'] + rest);
        RunOne(within.(cell := within.cell + Render(inner)), ')', rest);
    }
  }

  /** At the outermost level each key leaves its items. */
  lemma {:induction false} RunOutsideNots(items: seq<Item>, n: nat, rest: string)
    ensures Run(Start(items), Nots(n) + rest) == Run(Start(items + NotItems(n)), rest)
    decreases n
  {
    hide Run;
    if n == 0 {
      assert "" + rest == rest && items + [] == items;
    } else {
      var more := Nots(n - 1);
      NotsSplit(n, rest);
      RunOrdinary(Start(items), "NOT", [' '] + (more + rest));
      assert "" + "NOT" == "NOT";
      RunOne(Start(items).(cell := "NOT"), ' ', more + rest);
      var it := Item("NOT", false);
      RunOutsideNots(items + [it], n - 1, rest);
      assert items + [it] + NotItems(n - 1) == items + ([it] + NotItems(n - 1));
    }
  }

  /** A key, up to the space or the end after it. */
  lemma RunOutsideKey(items: seq<Item>, k: Key, rest: string)
    requires Words([k])
    ensures var it := LastItem(k);
            Run(Start(items), RenderKey(k) + rest)
            == Run(Start(items + NotItems(k.nots)).(cell := it.text, deep := it.deep), rest)
  {
    hide Run, KeyOf, Ordinary, RenderKey, Render, Nots;
    assert k in [k];
    var st := Start(items + NotItems(k.nots));
    match k {
      case Flag(n, name) =>
        FlagSplit(k, "", rest);
        RunOutsideNots(items, n, name + rest);
        RunOrdinary(st, name, rest);
        assert "" + name == name;
      case Group(n, inner) =>
        var tail := Render(inner) + ([')'] + rest);
        GroupSplit(k, "", rest);
        RunOutsideNots(items, n, ['('] + tail);
        RunOne(st, '(', tail);
        var within := st.(deep := true, bracket := 1);
        RunInside(within, inner, [')'] + rest);
        assert "" + Render(inner) == Render(inner);
        RunOne(within.(cell := Render(inner)), ')', rest);
    }
  }

  lemma RunEnd(st: State)
    requires st.bracket == 0 && !st.escaped && !st.quoted
    ensures Run(st, "") == st.items + [Item(st.cell, st.deep)]
  {
  }

  lemma {:induction false} RunOutside(items: seq<Item>, ks: seq<Key>)
    requires ks != [] && Words(ks)
    ensures Run(Start(items), Render(ks)) == items + ItemsOf(ks)
    decreases |ks|
  {
    hide Run, KeyOf, RenderKey, Render, Tail, NotItems, LastItem;
    var k, more := ks[0], ks[1..];
    assert k in ks && forall x | x in more :: x in ks;
    var nots, it := NotItems(k.nots), LastItem(k);
    var st := Start(items + nots).(cell := it.text, deep := it.deep);
    RunOutsideKey(items, k, Tail(ks));
    RenderSplit(ks, "", "");
    assert Render(ks) + "" == Render(ks) && Tail(ks) + "" == Tail(ks);
    Assoc(items, nots, [it]);
    Assoc(items, nots + [it], ItemsOf(more));
    if |ks| == 1 {
      RunEnd(st);
      assert nots + [it] + [] == nots + [it];
    } else {
      assert Render(more) + "" == Render(more);
      RunOne(st, ' ', Render(more));
      RunOutside(items + nots + [it], more);
    }
  }

  /** The items of a rendered query are its keys, a group being one item that holds the rendered
      group. */
  lemma ParseRender(ks: seq<Key>)
    requires Words(ks)
    ensures Parse(Render(ks)) == if ks == [] then [Item("", false)] else ItemsOf(ks)
  {
    if ks != [] {
      RunOutside([], ks);
      assert [] + ItemsOf(ks) == ItemsOf(ks);
    }
  }

  // ---- quotes, escapes and wide characters ----

  predicate Quotable(text: string) { forall c | c in text :: c as int <= 0x7F && c != '"' && c != '\\' && c != '\r' }

  lemma {:induction false} RunQuoted(st: State, text: string, rest: string)
    requires st.quoted && !st.escaped && Quotable(text)
    ensures Run(st, text + rest) == Run(st.(cell := st.cell + text), rest)
    decreases |text|
  {
    if text == "" {
      assert "" + rest == rest && st.cell + "" == st.cell;
    } else {
      assert (text + rest)[1..] == text[1..] + rest && text[0] in text;
      assert forall c | c in text[1..] :: c in text;
      RunQuoted(Step(st, text[0]), text[1..], rest);
      assert st.cell + [text[0]] + text[1..] == st.cell + text;
    }
  }

  /** Between quotes spaces, line feeds and brackets are part of the item, and so are the quotes. */
  lemma QuotedItem(text: string)
    requires Quotable(text)
    ensures Parse("\"" + text + "\"") == [Item("\"" + text + "\"", false)]
  {
    hide Run, Quotable;
    var st := Start([]);
    var within := st.(cell := "\"", quoted := true);
    assert "\"" + text + "\"" == ['"'] + (text + ['"']);
    RunOne(st, '"', text + ['"']);
    assert "" + ['"'] == "\"";
    RunQuoted(within, text, ['"']);
    assert ['"'] + "" == ['"'];
    RunOne(within.(cell := "\"" + text), '"', "");
    RunEnd(st.(cell := "\"" + text + "\""));
    assert [] + [Item("\"" + text + "\"", false)] == [Item("\"" + text + "\"", false)];
  }

  /** A backslash takes the next character as it is. */
  lemma EscapedItem(c: char)
    ensures Parse(['\\', c]) == [Item([c], false)]
  {
    var st := Start([]);
    assert ['\\', c][1..] == [c] && [c][1..] == "" && "" + [c] == [c];
    assert Run(st, ['\\', c]) == Run(st.(escaped := true), [c]) == Run(st.(cell := [c]), "");
  }

  /** A byte above 0x7F takes the next one with it, whatever that is; at the end it loses the item. */
  lemma WideItem(c: char, d: char)
    requires c as int > 0x7F
    ensures Parse([c, d]) == [Item([c, d], false)] && Parse([c]) == []
  {
    var st := Start([]);
    assert [c, d][..2] == [c, d] && [c, d][2..] == "" && "" + [c, d] == [c, d];
    assert Run(st, [c, d]) == Run(st.(cell := [c, d]), "");
  }

  /** A line feed ends an item as a space does, and a carriage return is dropped. */
  lemma LineBreaks(a: string, b: string)
    requires IsWord(a) && IsWord(b)
    ensures Parse(a + "\r\n" + b) == [Item(a, false), Item(b, false)] == Parse(a + " " + b)
  {
    hide Run, Ordinary;
    var st := Start([]);
    assert a + "\r\n" + b == a + (['\r'] + (['\n'] + b)) && a + " " + b == a + ([' '] + b);
    RunOrdinary(st, a, ['\r'] + (['\n'] + b));
    RunOrdinary(st, a, [' '] + b);
    assert "" + a == a && "" + b == b && b + "" == b;
    RunOne(st.(cell := a), '\r', ['\n'] + b);
    RunOne(st.(cell := a), '\n', b);
    RunOne(st.(cell := a), ' ', b);
    var next := Start([Item(a, false)]);
    assert Pushed(st.(cell := a)) == next;
    RunOrdinary(next, b, "");
    RunEnd(next.(cell := b));
  }

  /** An item whose quote or bracket is not closed, or with a bracket too many, is lost. */
  lemma Unclosed()
    ensures Parse("\"a") == [] && Parse("(a") == [] && Parse("a)") == []
  {
    assert "\"a"[1..] == "a" && "(a"[1..] == "a" && "a)"[1..] == ")" && ")"[1..] == "" && "a"[1..] == "";
  }

  /** Inside brackets a quote is a character like any other. */
  lemma QuoteInBrackets()
    ensures Parse("(\")") == [Item("\"", true)]
  {
    assert "(\")"[1..] == "\")" && "\")"[1..] == ")" && ")"[1..] == "";
    var st := Start([]);
    assert "" + ['"'] == "\"";
    assert Run(st.(cell := "\"", deep := true, bracket := 1), ")") == [Item("\"", true)];
    assert Run(st.(deep := true, bracket := 1), "\")") == [Item("\"", true)];
  }
}
