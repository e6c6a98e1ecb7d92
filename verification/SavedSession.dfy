/** A session as text: what `export_state` writes and `import_state` reads. */
module SavedSession {
  import opened Machine
  import opened Ordered
  import opened Decimal
  import opened Json
  import opened JsonSyntax
  import opened JsonRoundTrip
  import opened SigningSession
  import JsonParser

  // ---- export ----

  function Text(n: u64): Json {
    Str(Digits(n))
  }

  function SlotJson(slot: u64, accepted: bool): Json {
    Object([Field("slot", Text(slot)), Field("accepted", Bool(accepted))])
  }

  function SlotJsons(slots: Slots, order: seq<u64>): seq<Json>
    requires forall n :: n in order ==> n in slots
  {
    if order == [] then []
    else
      var last := order[|order| - 1];
      SlotJsons(slots, order[..|order| - 1]) + [SlotJson(last, slots[last])]
  }

  function SlotList(slots: Slots): seq<Json> {
    var order := SortedNumbers(slots.Keys);
    assert forall n :: n in order ==> n in SetOf(order);
    SlotJsons(slots, order)
  }

  function EntryJson(s: State, key: Key): Json {
    Object([Field("key", Str(key)), Field("held", Array(SlotList(HeldAt(s, key))))]
           + (if key in s.next then [Field("next", Text(s.next[key]))] else []))
  }

  function EntryJsons(s: State, order: seq<Key>): seq<Json> {
    if order == [] then []
    else EntryJsons(s, order[..|order| - 1]) + [EntryJson(s, order[|order| - 1])]
  }

  function HeadJson(chain: string, head: SigningSession.Head): Json {
    Object([Field("chain", Str(chain)), Field("height", Text(head.height)), Field("at", Text(head.at))])
  }

  function HeadJsons(heads: map<string, SigningSession.Head>, order: seq<string>): seq<Json>
    requires forall c :: c in order ==> c in heads
  {
    if order == [] then []
    else
      var last := order[|order| - 1];
      HeadJsons(heads, order[..|order| - 1]) + [HeadJson(last, heads[last])]
  }

  function EntryList(s: State): seq<Json> {
    EntryJsons(s, SortedTexts(s.next.Keys + s.held.Keys))
  }

  function HeadList(s: State): seq<Json> {
    var order := SortedTexts(s.heads.Keys);
    assert forall c :: c in order ==> c in SetOf(order);
    HeadJsons(s.heads, order)
  }

  function SessionJson(s: State): Json {
    Object([Field("version", Int(1)), Field("keys", Array(EntryList(s))), Field("heads", Array(HeadList(s)))])
  }

  method ExportState(session: Session) returns (text: string)
    ensures text == Rendered(SessionJson(session.Now()))
  {
    var s := State(session.next, session.held, session.reserved, session.heads);
    text := Render(SessionJson(s));
  }

  // ---- import ----

  datatype ChainHead = ChainHead(chain: string, head: SigningSession.Head)

  datatype Entries = Entries(next: map<Key, u64>, held: map<Key, Slots>)

  function TextAt(j: Json, key: string): Option<string> {
    var v := Get(j, key);
    if v.Some? && v.value.Str? then Some(v.value.s) else None
  }

  /** The closure `number` of `import_state`. */
  function NumberAt(j: Json, key: string): Option<u64> {
    match TextAt(j, key)
    case None => None
    case Some(t) => CanonicalU64(t)
  }

  function SlotsFrom(list: seq<Json>): Option<Slots> {
    if list == [] then Some(map[])
    else
      var last := list[|list| - 1];
      match SlotsFrom(list[..|list| - 1])
      case None => None
      case Some(slots) =>
        match NumberAt(last, "slot")
        case None => None
        case Some(slot) => Some(slots[slot := Get(last, "accepted") == Some(Bool(true))])
  }

  function SlotsAt(item: Json): Option<Slots> {
    var held := Get(item, "held");
    if held.Some? && held.value.Array? then SlotsFrom(held.value.items) else Some(map[])
  }

  function WithEntry(e: Entries, item: Json): Option<Entries> {
    match TextAt(item, "key")
    case None => None
    case Some(key) =>
      if Get(item, "next").Some? && NumberAt(item, "next").None? then None
      else
        var next := if Get(item, "next").Some? then e.next[key := NumberAt(item, "next").value] else e.next;
        match SlotsAt(item)
        case None => None
        case Some(slots) => Some(Entries(next, if slots == map[] then e.held else e.held[key := slots]))
  }

  function EntriesFrom(items: seq<Json>): Option<Entries> {
    if items == [] then Some(Entries(map[], map[]))
    else
      match EntriesFrom(items[..|items| - 1])
      case None => None
      case Some(e) => WithEntry(e, items[|items| - 1])
  }

  function HeadFrom(j: Json): Option<ChainHead> {
    if TextAt(j, "chain").Some? && NumberAt(j, "height").Some? && NumberAt(j, "at").Some?
    then Some(ChainHead(TextAt(j, "chain").value, SigningSession.Head(NumberAt(j, "height").value, NumberAt(j, "at").value)))
    else None
  }

  function HeadsFrom(list: seq<Json>): Option<seq<ChainHead>> {
    if list == [] then Some([])
    else
      var front := HeadsFrom(list[..|list| - 1]);
      var last := HeadFrom(list[|list| - 1]);
      if front.Some? && last.Some? then Some(front.value + [last.value]) else None
  }

  function SavedHeads(j: Json): Option<seq<ChainHead>> {
    match Get(j, "heads")
    case None => Some([])
    case Some(list) => if list.Array? then HeadsFrom(list.items) else None
  }

  function HigherNext(next: map<Key, u64>, saved: map<Key, u64>): map<Key, u64> {
    map k | k in next.Keys + saved.Keys ::
      if k !in saved then next[k] else if k !in next then saved[k] else Max(next[k], saved[k])
  }

  function ExtendedHeld(held: map<Key, Slots>, saved: map<Key, Slots>): map<Key, Slots> {
    map k | k in held.Keys + saved.Keys ::
      if k !in saved then held[k] else if k !in held then saved[k] else held[k] + saved[k]
  }

  function NotedHeads(heads: map<string, SigningSession.Head>, list: seq<ChainHead>): map<string, SigningSession.Head> {
    if list == [] then heads
    else
      var before := NotedHeads(heads, list[..|list| - 1]);
      var last := list[|list| - 1];
      before[last.chain := HigherHead(before, last.chain, last.head)]
  }

  datatype ImportResult = ImportResult(state: State, ok: bool)

  /** What importing this text leaves; a bad head list is found only after the nonces were raised. */
  function Imported(s: State, text: string): ImportResult {
    match Parsing(text)
    case None => ImportResult(s, false)
    case Some(j) =>
      if Get(j, "version") != Some(Int(1)) then ImportResult(s, false)
      else if !(Get(j, "keys").Some? && Get(j, "keys").value.Array?) then ImportResult(s, false)
      else
        match EntriesFrom(Get(j, "keys").value.items)
        case None => ImportResult(s, false)
        case Some(e) =>
          var raised := s.(next := HigherNext(s.next, e.next));
          match SavedHeads(j)
          case None => ImportResult(raised, false)
          case Some(heads) =>
            ImportResult(raised.(held := ExtendedHeld(s.held, e.held), heads := NotedHeads(s.heads, heads)), true)
  }

  method ReadSlots(list: seq<Json>) returns (r: Option<Slots>)
    ensures r == SlotsFrom(list)
  {
    var slots: Slots := map[];
    for i := 0 to |list|
      invariant SlotsFrom(list[..i]) == Some(slots)
    {
      SlotsFromPrefix(list, i);
      var slot := NumberAt(list[i], "slot");
      if slot.None? {
        SlotsFromFails(list, i + 1);
        return None;
      }
      slots := slots[slot.value := Get(list[i], "accepted") == Some(Bool(true))];
    }
    assert list[..|list|] == list;
    return Some(slots);
  }

  lemma SlotsFromPrefix(list: seq<Json>, i: nat)
    requires i < |list|
    ensures list[..i + 1][..i] == list[..i] && list[..i + 1][i] == list[i]
  {
  }

  lemma {:induction false} SlotsFromFails(list: seq<Json>, i: nat)
    requires i <= |list| && SlotsFrom(list[..i]).None?
    ensures SlotsFrom(list).None?
    decreases |list| - i
  {
    if i < |list| {
      SlotsFromPrefix(list, i);
      SlotsFromFails(list, i + 1);
    } else {
      assert list[..i] == list;
    }
  }

  method ReadEntries(items: seq<Json>) returns (r: Option<Entries>)
    ensures r == EntriesFrom(items)
  {
    var e := Entries(map[], map[]);
    for i := 0 to |items|
      invariant EntriesFrom(items[..i]) == Some(e)
    {
      SlotsFromPrefix(items, i);
      var item := items[i];
      var key := TextAt(item, "key");
      if key.None? {
        EntriesFromFails(items, i + 1);
        return None;
      }
      var next := e.next;
      if Get(item, "next").Some? {
        var n := NumberAt(item, "next");
        if n.None? {
          EntriesFromFails(items, i + 1);
          return None;
        }
        next := next[key.value := n.value];
      }
      var slots: Option<Slots> := Some(map[]);
      var held := Get(item, "held");
      if held.Some? && held.value.Array? {
        slots := ReadSlots(held.value.items);
      }
      if slots.None? {
        EntriesFromFails(items, i + 1);
        return None;
      }
      e := Entries(next, if slots.value == map[] then e.held else e.held[key.value := slots.value]);
    }
    assert items[..|items|] == items;
    return Some(e);
  }

  lemma {:induction false} EntriesFromFails(items: seq<Json>, i: nat)
    requires i <= |items| && EntriesFrom(items[..i]).None?
    ensures EntriesFrom(items).None?
    decreases |items| - i
  {
    if i < |items| {
      SlotsFromPrefix(items, i);
      EntriesFromFails(items, i + 1);
    } else {
      assert items[..i] == items;
    }
  }

  method ReadHeads(list: seq<Json>) returns (r: Option<seq<ChainHead>>)
    ensures r == HeadsFrom(list)
  {
    var heads: seq<ChainHead> := [];
    for i := 0 to |list|
      invariant HeadsFrom(list[..i]) == Some(heads)
    {
      SlotsFromPrefix(list, i);
      var head := HeadFrom(list[i]);
      if head.None? {
        HeadsFromFails(list, i + 1);
        return None;
      }
      heads := heads + [head.value];
    }
    assert list[..|list|] == list;
    return Some(heads);
  }

  lemma {:induction false} HeadsFromFails(list: seq<Json>, i: nat)
    requires i <= |list| && HeadsFrom(list[..i]).None?
    ensures HeadsFrom(list).None?
    decreases |list| - i
  {
    if i < |list| {
      SlotsFromPrefix(list, i);
      HeadsFromFails(list, i + 1);
    } else {
      assert list[..i] == list;
    }
  }

  method ImportState(session: Session, text: string) returns (ok: bool)
    modifies session
    ensures ImportResult(session.Now(), ok) == Imported(old(session.Now()), text)
  {
    var parsed := JsonParser.Parse(text);
    if parsed.None? {
      return false;
    }
    var j := parsed.value;
    if Get(j, "version") != Some(Int(1)) {
      return false;
    }
    var keys := Get(j, "keys");
    if keys.None? || !keys.value.Array? {
      return false;
    }
    var entries := ReadEntries(keys.value.items);
    if entries.None? {
      return false;
    }
    session.next := HigherNext(session.next, entries.value.next);
    var heads: seq<ChainHead> := [];
    var list := Get(j, "heads");
    if list.Some? {
      if !list.value.Array? {
        return false;
      }
      var read := ReadHeads(list.value.items);
      if read.None? {
        return false;
      }
      heads := read.value;
    }
    session.held := ExtendedHeld(session.held, entries.value.held);
    ghost var before := session.heads;
    for i := 0 to |heads|
      invariant session.heads == NotedHeads(before, heads[..i])
      invariant session.next == HigherNext(old(session.next), entries.value.next)
      invariant session.held == ExtendedHeld(old(session.held), entries.value.held)
      invariant session.reserved == old(session.reserved)
    {
      assert heads[..i + 1][..i] == heads[..i];
      session.NoteHead(heads[i].chain, heads[i].head.height, heads[i].head.at);
    }
    assert heads[..|heads|] == heads;
    return true;
  }

  // ---- the text survives the parser ----

  /** Every item can be read back inside an array, and nests at most so deep. */
  ghost predicate Readable(items: seq<Json>, bound: nat) {
    forall i :: 0 <= i < |items| ==> Nesting(items[i]) <= bound && UniqueKeys(items[i])
  }

  lemma {:induction false} ItemNestingBound(items: seq<Json>, bound: nat)
    requires forall i :: 0 <= i < |items| ==> Nesting(items[i]) <= bound
    ensures ItemNesting(items) <= bound
  {
    if items != [] {
      ItemNestingBound(items[1..], bound);
    }
  }

  lemma ReadableArray(items: seq<Json>, bound: nat)
    requires Readable(items, bound)
    ensures Nesting(Array(items)) <= bound + 1 && UniqueKeys(Array(items))
  {
    ItemNestingBound(items, bound);
  }

  lemma FieldNestingPair(a: Field, b: Field)
    ensures FieldNesting([a, b]) == Max(Nesting(a.value), Nesting(b.value))
  {
    assert [a, b][1..] == [b] && [b][1..] == [];
    assert FieldNesting([b]) == Max(Nesting(b.value), FieldNesting([]));
  }

  lemma FieldNestingTriple(a: Field, b: Field, c: Field)
    ensures FieldNesting([a, b, c]) == Max(Nesting(a.value), Max(Nesting(b.value), Nesting(c.value)))
  {
    assert [a, b, c][1..] == [b, c];
    FieldNestingPair(b, c);
  }

  lemma DistinctPair(a: Field, b: Field)
    requires a.key != b.key
    ensures NoDuplicates(Keys([a, b]))
  {
    assert Keys([a, b]) == [a.key, b.key];
  }

  lemma DistinctTriple(a: Field, b: Field, c: Field)
    requires a.key != b.key && a.key != c.key && b.key != c.key
    ensures NoDuplicates(Keys([a, b, c]))
  {
    assert Keys([a, b, c]) == [a.key, b.key, c.key];
  }

  lemma SlotReadable(slot: u64, accepted: bool)
    ensures Nesting(SlotJson(slot, accepted)) == 1 && UniqueKeys(SlotJson(slot, accepted))
  {
    var a, b := Field("slot", Text(slot)), Field("accepted", Bool(accepted));
    FieldNestingPair(a, b);
    DistinctPair(a, b);
  }

  lemma {:induction false} SlotJsonsReadable(slots: Slots, order: seq<u64>)
    requires forall n :: n in order ==> n in slots
    ensures Readable(SlotJsons(slots, order), 1)
  {
    if order != [] {
      SlotJsonsReadable(slots, order[..|order| - 1]);
      SlotReadable(order[|order| - 1], slots[order[|order| - 1]]);
    }
  }

  lemma SlotListReadable(slots: Slots)
    ensures Nesting(Array(SlotList(slots))) <= 2 && UniqueKeys(Array(SlotList(slots)))
  {
    var order := SortedNumbers(slots.Keys);
    assert forall n :: n in order ==> n in SetOf(order);
    SlotJsonsReadable(slots, order);
    ReadableArray(SlotJsons(slots, order), 1);
  }

  lemma EntryReadable(s: State, key: Key)
    ensures Nesting(EntryJson(s, key)) <= 3 && UniqueKeys(EntryJson(s, key))
  {
    SlotListReadable(HeldAt(s, key));
    hide SlotList;
    var a, b := Field("key", Str(key)), Field("held", Array(SlotList(HeldAt(s, key))));
    if key in s.next {
      var c := Field("next", Text(s.next[key]));
      assert [a, b] + [c] == [a, b, c];
      FieldNestingTriple(a, b, c);
      DistinctTriple(a, b, c);
      assert EntryJson(s, key) == Object([a, b, c]);
    } else {
      assert [a, b] + [] == [a, b];
      FieldNestingPair(a, b);
      DistinctPair(a, b);
      assert EntryJson(s, key) == Object([a, b]);
    }
  }

  lemma {:induction false} EntryJsonsReadable(s: State, order: seq<Key>)
    ensures Readable(EntryJsons(s, order), 3)
  {
    if order != [] {
      EntryJsonsReadable(s, order[..|order| - 1]);
      EntryReadable(s, order[|order| - 1]);
      hide EntryJson;
    }
  }

  lemma {:induction false} HeadJsonsReadable(heads: map<string, SigningSession.Head>, order: seq<string>)
    requires forall c :: c in order ==> c in heads
    ensures Readable(HeadJsons(heads, order), 1)
  {
    if order != [] {
      HeadJsonsReadable(heads, order[..|order| - 1]);
      HeadReadable(order[|order| - 1], heads[order[|order| - 1]]);
    }
  }

  lemma HeadReadable(chain: string, head: SigningSession.Head)
    ensures Nesting(HeadJson(chain, head)) == 1 && UniqueKeys(HeadJson(chain, head))
  {
    var a, b, c := Field("chain", Str(chain)), Field("height", Text(head.height)), Field("at", Text(head.at));
    FieldNestingTriple(a, b, c);
    DistinctTriple(a, b, c);
  }

  lemma SessionReadable(s: State)
    ensures Nesting(SessionJson(s)) <= 5 && UniqueKeys(SessionJson(s))
  {
    var entryOrder, headOrder := SortedTexts(s.next.Keys + s.held.Keys), SortedTexts(s.heads.Keys);
    assert forall c :: c in headOrder ==> c in SetOf(headOrder);
    EntryJsonsReadable(s, entryOrder);
    ReadableArray(EntryJsons(s, entryOrder), 3);
    HeadJsonsReadable(s.heads, headOrder);
    ReadableArray(HeadJsons(s.heads, headOrder), 1);
    ListsReadable(EntryList(s), HeadList(s));
  }

  lemma ListsReadable(entries: seq<Json>, heads: seq<Json>)
    requires Nesting(Array(entries)) <= 4 && UniqueKeys(Array(entries))
    requires Nesting(Array(heads)) <= 2 && UniqueKeys(Array(heads))
    ensures var j := Object([Field("version", Int(1)), Field("keys", Array(entries)), Field("heads", Array(heads))]);
            Nesting(j) <= 5 && UniqueKeys(j)
  {
    var a, b, c := Field("version", Int(1)), Field("keys", Array(entries)), Field("heads", Array(heads));
    FieldNestingTriple(a, b, c);
    DistinctTriple(a, b, c);
  }

  lemma ExportParses(s: State)
    ensures Parsing(Rendered(SessionJson(s))) == Some(SessionJson(s))
  {
    SessionReadable(s);
    PrintThenParse(SessionJson(s));
  }

  // ---- and says what it said ----

  lemma GetOfPair(a: Field, b: Field, key: string)
    ensures Get(Object([a, b]), key)
            == if b.key == key then Some(b.value) else if a.key == key then Some(a.value) else None
  {
    assert [a, b][..1] == [a] && [a][..0] == [];
    assert LastField([a], key) == if a.key == key then Some(a.value) else LastField([], key);
  }

  lemma GetOfTriple(a: Field, b: Field, c: Field, key: string)
    ensures Get(Object([a, b, c]), key)
            == if c.key == key then Some(c.value) else if b.key == key then Some(b.value)
               else if a.key == key then Some(a.value) else None
  {
    assert [a, b, c][..2] == [a, b];
    GetOfPair(a, b, key);
    assert LastField([a, b], key) == Get(Object([a, b]), key);
  }

  lemma NumberReadBack(j: Json, key: string, n: u64)
    requires Get(j, key) == Some(Text(n))
    ensures NumberAt(j, key) == Some(n)
  {
    CanonicalIsPrinted(Digits(n), n);
  }

  lemma SlotReadBack(slot: u64, accepted: bool)
    ensures NumberAt(SlotJson(slot, accepted), "slot") == Some(slot)
    ensures Get(SlotJson(slot, accepted), "accepted") == Some(Bool(accepted))
  {
    var a, b := Field("slot", Text(slot)), Field("accepted", Bool(accepted));
    GetOfPair(a, b, "slot");
    GetOfPair(a, b, "accepted");
    NumberReadBack(SlotJson(slot, accepted), "slot", slot);
  }

  lemma {:induction false} SlotJsonsReadBack(slots: Slots, order: seq<u64>)
    requires forall n :: n in order ==> n in slots
    ensures SlotsFrom(SlotJsons(slots, order)) == Some(map n | n in order :: slots[n])
  {
    hide SlotJson, NumberAt, Get;
    if order != [] {
      var front, last := order[..|order| - 1], order[|order| - 1];
      SlotJsonsReadBack(slots, front);
      SlotReadBack(last, slots[last]);
      var list := SlotJsons(slots, order);
      assert list[..|list| - 1] == SlotJsons(slots, front);
      assert order == front + [last];
      OneMoreSlot(slots, front, last);
    }
  }

  lemma OneMoreSlot(slots: Slots, front: seq<u64>, last: u64)
    requires last in slots && forall n :: n in front ==> n in slots
    ensures (map n | n in front + [last] :: slots[n]) == (map n | n in front :: slots[n])[last := slots[last]]
  {
  }

  lemma SlotsReadBack(slots: Slots)
    ensures SlotsFrom(SlotList(slots)) == Some(slots)
  {
    var order := SortedNumbers(slots.Keys);
    assert forall n :: n in order <==> n in SetOf(order);
    SlotJsonsReadBack(slots, order);
    hide SlotsFrom, SlotJsons, SortedNumbers;
    assert (map n | n in order :: slots[n]) == slots;
  }

  lemma EntryReadBack(s: State, key: Key, e: Entries)
    ensures WithEntry(e, EntryJson(s, key))
            == Some(Entries(if key in s.next then e.next[key := s.next[key]] else e.next,
                            if HeldAt(s, key) == map[] then e.held else e.held[key := HeldAt(s, key)]))
  {
    var item := EntryJson(s, key);
    var a, b := Field("key", Str(key)), Field("held", Array(SlotList(HeldAt(s, key))));
    SlotsReadBack(HeldAt(s, key));
    hide SlotList, SlotsFrom, CanonicalU64;
    if key in s.next {
      var c := Field("next", Text(s.next[key]));
      assert [a, b] + [c] == [a, b, c];
      GetOfTriple(a, b, c, "key");
      GetOfTriple(a, b, c, "held");
      GetOfTriple(a, b, c, "next");
      assert item == Object([a, b, c]);
      NumberReadBack(item, "next", s.next[key]);
    } else {
      assert [a, b] + [] == [a, b];
      GetOfPair(a, b, "key");
      GetOfPair(a, b, "held");
      GetOfPair(a, b, "next");
      assert item == Object([a, b]);
    }
  }

  /** What an export of the keys in `order` alone restores. */
  function EntriesOf(s: State, order: seq<Key>): Entries {
    Entries(map k | k in order && k in s.next :: s.next[k],
            map k | k in order && k in s.held && s.held[k] != map[] :: s.held[k])
  }

  lemma {:induction false} EntryJsonsReadBack(s: State, order: seq<Key>)
    ensures EntriesFrom(EntryJsons(s, order)) == Some(EntriesOf(s, order))
  {
    hide EntryJson, WithEntry, EntriesOf, HeldAt;
    if order == [] {
      NoEntries(s);
    } else {
      var front, last := order[..|order| - 1], order[|order| - 1];
      EntryJsonsReadBack(s, front);
      EntryReadBack(s, last, EntriesOf(s, front));
      var list := EntryJsons(s, order);
      assert list[..|list| - 1] == EntryJsons(s, front);
      OneMoreEntry(s, front, last);
      assert order == front + [last];
    }
  }

  lemma NoEntries(s: State)
    ensures EntriesOf(s, []) == Entries(map[], map[])
  {
  }

  lemma OneMoreEntry(s: State, front: seq<Key>, last: Key)
    ensures var e := EntriesOf(s, front);
            EntriesOf(s, front + [last])
            == Entries(if last in s.next then e.next[last := s.next[last]] else e.next,
                       if HeldAt(s, last) == map[] then e.held else e.held[last := HeldAt(s, last)])
  {
    var e, e' := EntriesOf(s, front), EntriesOf(s, front + [last]);
    assert e'.next == if last in s.next then e.next[last := s.next[last]] else e.next;
    assert e'.held == if HeldAt(s, last) == map[] then e.held else e.held[last := HeldAt(s, last)];
  }

  lemma EntriesReadBack(s: State)
    ensures EntriesFrom(EntryList(s)) == Some(Entries(s.next, SavedOf(s).held))
  {
    var order := SortedTexts(s.next.Keys + s.held.Keys);
    EntryJsonsReadBack(s, order);
    assert forall k :: k in order <==> k in SetOf(order);
    AllEntries(s, order);
  }

  lemma AllEntries(s: State, order: seq<Key>)
    requires forall k :: k in order <==> k in s.next.Keys + s.held.Keys
    ensures EntriesOf(s, order) == Entries(s.next, SavedOf(s).held)
  {
    assert EntriesOf(s, order).next == s.next;
    assert EntriesOf(s, order).held == SavedOf(s).held;
  }

  lemma HeadReadBack(chain: string, head: SigningSession.Head)
    ensures HeadFrom(HeadJson(chain, head)) == Some(ChainHead(chain, head))
  {
    var a, b, c := Field("chain", Str(chain)), Field("height", Text(head.height)), Field("at", Text(head.at));
    var j := HeadJson(chain, head);
    GetOfTriple(a, b, c, "chain");
    GetOfTriple(a, b, c, "height");
    GetOfTriple(a, b, c, "at");
    NumberReadBack(j, "height", head.height);
    NumberReadBack(j, "at", head.at);
  }

  function HeadsIn(heads: map<string, SigningSession.Head>, order: seq<string>): seq<ChainHead>
    requires forall c :: c in order ==> c in heads
  {
    if order == [] then []
    else
      var last := order[|order| - 1];
      HeadsIn(heads, order[..|order| - 1]) + [ChainHead(last, heads[last])]
  }

  lemma {:induction false} HeadJsonsReadBack(heads: map<string, SigningSession.Head>, order: seq<string>)
    requires forall c :: c in order ==> c in heads
    ensures HeadsFrom(HeadJsons(heads, order)) == Some(HeadsIn(heads, order))
  {
    if order != [] {
      var front, last := order[..|order| - 1], order[|order| - 1];
      HeadJsonsReadBack(heads, front);
      HeadReadBack(last, heads[last]);
      var list := HeadJsons(heads, order);
      assert list[..|list| - 1] == HeadJsons(heads, front);
      hide HeadJson, HeadFrom;
    }
  }

  /** What noting saved heads leaves for the chains in `order`: the higher head of each. */
  function NotedFor(heads: map<string, SigningSession.Head>, saved: map<string, SigningSession.Head>,
                    order: seq<string>): map<string, SigningSession.Head>
    requires forall c :: c in order ==> c in saved
  {
    map c | c in heads.Keys + saved.Keys && (c in heads || c in order) ::
      if c in order then HigherHead(heads, c, saved[c]) else heads[c]
  }

  lemma {:induction false} NotingIsPerChain(heads: map<string, SigningSession.Head>,
                                            saved: map<string, SigningSession.Head>, order: seq<string>)
    requires NoDuplicates(order) && forall c :: c in order ==> c in saved
    ensures NotedHeads(heads, HeadsIn(saved, order)) == NotedFor(heads, saved, order)
  {
    if order == [] {
      assert NotedFor(heads, saved, order) == heads;
    } else {
      var front, last := order[..|order| - 1], order[|order| - 1];
      NotingIsPerChain(heads, saved, front);
      var list := HeadsIn(saved, order);
      assert list[..|list| - 1] == HeadsIn(saved, front);
      assert order == front + [last] && last !in front;
      OneMoreHead(heads, saved, front, last);
    }
  }

  lemma OneMoreHead(heads: map<string, SigningSession.Head>, saved: map<string, SigningSession.Head>,
                    front: seq<string>, last: string)
    requires last !in front && last in saved && forall c :: c in front ==> c in saved
    ensures var before := NotedFor(heads, saved, front);
            NotedFor(heads, saved, front + [last]) == before[last := HigherHead(before, last, saved[last])]
  {
    var before, after := NotedFor(heads, saved, front), NotedFor(heads, saved, front + [last]);
    assert HigherHead(before, last, saved[last]) == HigherHead(heads, last, saved[last]);
    hide HigherHead;
    assert after == before[last := HigherHead(heads, last, saved[last])];
  }

  lemma HeadsReadBack(heads: map<string, SigningSession.Head>, s: State)
    ensures HeadsFrom(HeadList(s)).Some?
    ensures NotedHeads(heads, HeadsFrom(HeadList(s)).value)
            == map c | c in heads.Keys + s.heads.Keys ::
                 if c in s.heads then HigherHead(heads, c, s.heads[c]) else heads[c]
  {
    var order := SortedTexts(s.heads.Keys);
    assert forall c :: c in order <==> c in SetOf(order);
    HeadJsonsReadBack(s.heads, order);
    NotingIsPerChain(heads, s.heads, order);
    AllHeads(heads, s.heads, order);
  }

  lemma AllHeads(heads: map<string, SigningSession.Head>, saved: map<string, SigningSession.Head>, order: seq<string>)
    requires forall c :: c in order <==> c in saved
    ensures NotedFor(heads, saved, order)
            == map c | c in heads.Keys + saved.Keys :: if c in saved then HigherHead(heads, c, saved[c]) else heads[c]
  {
    hide HigherHead;
  }

  /**
   * Saving and restoring through text: importing what another session exported succeeds and merges
   * its nonces, its held slots and its heads, for every pair of sessions.
   */
  lemma ImportOfExport(s: State, from: State)
    ensures Imported(s, Rendered(SessionJson(from))) == ImportResult(Merged(s, SavedOf(from)), true)
  {
    ExportParses(from);
    SessionFields(from);
    EntriesReadBack(from);
    HeadsReadBack(s.heads, from);
    MergedParts(s, from);
    hide SessionJson, Parsing, Rendered, EntriesFrom, HeadsFrom, EntryList, HeadList, NotedHeads, HigherNext,
         ExtendedHeld, Merged, SavedOf;
  }

  lemma SessionFields(s: State)
    ensures Get(SessionJson(s), "version") == Some(Int(1))
    ensures Get(SessionJson(s), "keys") == Some(Array(EntryList(s)))
    ensures Get(SessionJson(s), "heads") == Some(Array(HeadList(s)))
  {
    hide EntryList, HeadList;
    var a, b, c := Field("version", Int(1)), Field("keys", Array(EntryList(s))), Field("heads", Array(HeadList(s)));
    GetOfTriple(a, b, c, "version");
    GetOfTriple(a, b, c, "keys");
    GetOfTriple(a, b, c, "heads");
  }

  lemma MergedParts(s: State, from: State)
    ensures Merged(s, SavedOf(from))
            == State(HigherNext(s.next, from.next), ExtendedHeld(s.held, SavedOf(from).held), s.reserved,
                     map c | c in s.heads.Keys + from.heads.Keys ::
                       if c in from.heads then HigherHead(s.heads, c, from.heads[c]) else s.heads[c])
  {
    hide HigherHead;
    var m, saved := Merged(s, SavedOf(from)), SavedOf(from);
    assert m.next == HigherNext(s.next, from.next);
    MergedHeld(s, saved);
  }

  lemma MergedHeld(s: State, saved: Saved)
    ensures Merged(s, saved).held == ExtendedHeld(s.held, saved.held)
  {
    forall k | k in saved.held && k !in s.held
      ensures HeldAt(s, k) + saved.held[k] == saved.held[k]
    {
    }
  }

  /** A fresh session that imports an export has its nonces, its non-empty held slots and its heads. */
  lemma RestoredSession(from: State)
    ensures Imported(FRESH, Rendered(SessionJson(from)))
            == ImportResult(State(from.next, SavedOf(from).held, map[], from.heads), true)
  {
    ImportOfExport(FRESH, from);
    MergedIntoFresh(from);
    hide Imported;
  }

  lemma MergedIntoFresh(from: State)
    ensures Merged(FRESH, SavedOf(from)) == State(from.next, SavedOf(from).held, map[], from.heads)
  {
    var m := Merged(FRESH, SavedOf(from));
    assert m.next == from.next;
    MergedHeld(FRESH, SavedOf(from));
    assert m.held == SavedOf(from).held;
    assert m.heads == from.heads;
  }

  // ---- an import that fails half way ----

  /** The nonces and slots a text holds, when it is a version 1 session whose entries can be read. */
  function EntriesIn(text: string): Option<Entries> {
    match Parsing(text)
    case None => None
    case Some(j) =>
      if Get(j, "version") == Some(Int(1)) && Get(j, "keys").Some? && Get(j, "keys").value.Array?
      then EntriesFrom(Get(j, "keys").value.items)
      else None
  }

  /** Something saved is not yet reached. */
  ghost predicate Raises(saved: map<Key, u64>, next: map<Key, u64>) {
    exists k :: k in saved && (k !in next || next[k] < saved[k])
  }

  lemma HigherNextChanges(next: map<Key, u64>, saved: map<Key, u64>)
    ensures HigherNext(next, saved) != next <==> Raises(saved, next)
  {
    var higher := HigherNext(next, saved);
    if k :| k in saved && (k !in next || next[k] < saved[k]) {
      assert k in higher && (k !in next || higher[k] != next[k]);
    } else {
      assert higher == next;
    }
  }

  /**
   * A failed import changes the session exactly when it got as far as the heads: the entries could be
   * read, the heads could not, and some saved nonce lies above the session's own.
   */
  lemma FailedImportChanges(s: State, text: string)
    ensures !Imported(s, text).ok && Imported(s, text).state != s
            <==> && EntriesIn(text).Some? && SavedHeads(Parsing(text).value).None?
                 && Raises(EntriesIn(text).value.next, s.next)
  {
    hide EntriesFrom, SavedHeads, Parsing, Get, HigherNext, Raises;
    if EntriesIn(text).Some? {
      HigherNextChanges(s.next, EntriesIn(text).value.next);
    }
  }

  /** Even then it does what some honest import does, so every run of calls may contain it. */
  lemma FailedImportIsHonest(s: State, text: string)
    requires !Imported(s, text).ok
    ensures exists saved :: Honest(Import(saved)) && Imported(s, text).state == After(s, Import(saved))
  {
    hide EntriesFrom, SavedHeads, Parsing, Get;
    var next := if EntriesIn(text).Some? && SavedHeads(Parsing(text).value).None? then EntriesIn(text).value.next else map[];
    var from := State(next, map[], map[], map[]);
    assert Settled(from);
    assert Honest(Import(SavedOf(from)));
    OnlyNextMerged(s, from);
    assert HigherNext(s.next, map[]) == s.next;
  }

  lemma OnlyNextMerged(s: State, from: State)
    requires from.held == map[] && from.heads == map[]
    ensures Merged(s, SavedOf(from)) == s.(next := HigherNext(s.next, from.next))
  {
    MergedParts(s, from);
    assert ExtendedHeld(s.held, SavedOf(from).held) == s.held;
  }

  const HALF_SAVED: Json :=
    Object([Field("version", Int(1)),
            Field("keys", Array([Object([Field("key", Str("a")), Field("next", Str("5"))])])),
            Field("heads", Null)])

  /** A text whose heads are no list: the import fails, and the nonce it names is reached all the same. */
  lemma AFailedImportCanRaiseNext()
    ensures var text := Rendered(HALF_SAVED);
            !Imported(FRESH, text).ok && Imported(FRESH, text).state == FRESH.(next := map["a" := 5])
  {
    var entry := Object([Field("key", Str("a")), Field("next", Str("5"))]);
    HalfSavedParses(entry);
    HalfSavedFields(entry);
    HalfSavedEntries(entry);
    hide Rendered, Parsing, Get, EntriesFrom;
    assert HigherNext(map[], map["a" := 5]) == map["a" := 5];
  }

  lemma HalfSavedParses(entry: Json)
    requires entry == Object([Field("key", Str("a")), Field("next", Str("5"))])
    ensures Parsing(Rendered(HALF_SAVED)) == Some(HALF_SAVED)
  {
    hide Rendered, Parsing;
    FieldNestingPair(Field("key", Str("a")), Field("next", Str("5")));
    DistinctPair(Field("key", Str("a")), Field("next", Str("5")));
    assert Nesting(entry) <= 1 && UniqueKeys(entry);
    var version, keys, heads := Field("version", Int(1)), Field("keys", Array([entry])), Field("heads", Null);
    FieldNestingTriple(version, keys, heads);
    DistinctTriple(version, keys, heads);
    assert [entry][1..] == [];
    PrintThenParse(HALF_SAVED);
  }

  lemma HalfSavedFields(entry: Json)
    requires entry == Object([Field("key", Str("a")), Field("next", Str("5"))])
    ensures Get(HALF_SAVED, "version") == Some(Int(1)) && Get(HALF_SAVED, "keys") == Some(Array([entry]))
    ensures Get(HALF_SAVED, "heads") == Some(Null)
    ensures TextAt(entry, "key") == Some("a") && TextAt(entry, "next") == Some("5")
    ensures Get(entry, "next") == Some(Str("5")) && Get(entry, "held") == None
  {
    var version, keys, heads := Field("version", Int(1)), Field("keys", Array([entry])), Field("heads", Null);
    GetOfTriple(version, keys, heads, "version");
    GetOfTriple(version, keys, heads, "keys");
    GetOfTriple(version, keys, heads, "heads");
    var key, next := Field("key", Str("a")), Field("next", Str("5"));
    GetOfPair(key, next, "key");
    GetOfPair(key, next, "next");
    GetOfPair(key, next, "held");
  }

  lemma HalfSavedEntries(entry: Json)
    requires entry == Object([Field("key", Str("a")), Field("next", Str("5"))])
    ensures EntriesFrom([entry]) == Some(Entries(map["a" := 5], map[]))
  {
    HalfSavedFields(entry);
    hide Get;
    assert [entry][..0] == [];
    assert Digits(5) == "5";
    CanonicalIsPrinted("5", 5);
    hide CanonicalU64;
  }

  // ---- what is written, field by field ----

  /** `{"slot":"..","accepted":..}` for every held slot, in ascending order. */
  ghost predicate SlotsWritten(list: seq<Json>, slots: Slots) {
    var order := SortedNumbers(slots.Keys);
    && |list| == |order|
    && forall i :: 0 <= i < |order| ==>
         order[i] in slots
         && list[i] == Object([Field("slot", Str(Digits(order[i]))), Field("accepted", Bool(slots[order[i]]))])
  }

  /** `{"key":"..","held":[..],"next":".."}`, without the last field where there is no next nonce. */
  ghost predicate EntryWritten(j: Json, s: State, key: Key) {
    && j.Object? && (|j.fields| == if key in s.next then 3 else 2)
    && j.fields[0] == Field("key", Str(key))
    && j.fields[1].key == "held" && j.fields[1].value.Array?
    && SlotsWritten(j.fields[1].value.items, if key in s.held then s.held[key] else map[])
    && (key in s.next ==> j.fields[2] == Field("next", Str(Digits(s.next[key]))))
  }

  ghost predicate HeadWritten(j: Json, chain: string, head: SigningSession.Head) {
    j == Object([Field("chain", Str(chain)), Field("height", Str(Digits(head.height))), Field("at", Str(Digits(head.at)))])
  }

  ghost predicate EntriesWritten(list: seq<Json>, s: State, order: seq<Key>) {
    |list| == |order| && forall i :: 0 <= i < |order| ==> EntryWritten(list[i], s, order[i])
  }

  ghost predicate HeadsWritten(list: seq<Json>, heads: map<string, SigningSession.Head>, order: seq<string>) {
    |list| == |order|
    && forall i :: 0 <= i < |order| ==> order[i] in heads && HeadWritten(list[i], order[i], heads[order[i]])
  }

  /** `{"version":1,"keys":[..],"heads":[..]}`, keys and chains in ascending order. */
  ghost predicate SessionWritten(j: Json, s: State) {
    && j.Object? && |j.fields| == 3
    && j.fields[0] == Field("version", Int(1))
    && j.fields[1].key == "keys" && j.fields[1].value.Array?
    && EntriesWritten(j.fields[1].value.items, s, SortedTexts(s.next.Keys + s.held.Keys))
    && j.fields[2].key == "heads" && j.fields[2].value.Array?
    && HeadsWritten(j.fields[2].value.items, s.heads, SortedTexts(s.heads.Keys))
  }

  lemma {:induction false} SlotJsonsAre(slots: Slots, order: seq<u64>)
    requires forall n :: n in order ==> n in slots
    ensures |SlotJsons(slots, order)| == |order|
    ensures forall i :: 0 <= i < |order| ==>
              && order[i] in slots
              && SlotJsons(slots, order)[i]
                 == Object([Field("slot", Str(Digits(order[i]))), Field("accepted", Bool(slots[order[i]]))])
  {
    hide Digits;
    if order != [] {
      SlotJsonsAre(slots, order[..|order| - 1]);
    }
  }

  lemma SlotListIs(slots: Slots)
    ensures SlotsWritten(SlotList(slots), slots)
  {
    var order := SortedNumbers(slots.Keys);
    assert forall n :: n in order ==> n in SetOf(order);
    hide Digits;
    SlotJsonsAre(slots, order);
  }

  lemma EntryIs(s: State, key: Key)
    ensures EntryWritten(EntryJson(s, key), s, key)
  {
    hide Digits, SlotList, SlotsWritten;
    SlotListIs(HeldAt(s, key));
  }

  lemma {:induction false} EntryJsonsAre(s: State, order: seq<Key>)
    ensures EntriesWritten(EntryJsons(s, order), s, order)
  {
    hide EntryJson, EntryWritten;
    if order != [] {
      var front := order[..|order| - 1];
      EntryJsonsAre(s, front);
      EntryIs(s, order[|order| - 1]);
      assert forall i :: 0 <= i < |front| ==> front[i] == order[i];
    }
  }

  lemma {:induction false} HeadJsonsAre(heads: map<string, SigningSession.Head>, order: seq<string>)
    requires forall c :: c in order ==> c in heads
    ensures HeadsWritten(HeadJsons(heads, order), heads, order)
  {
    hide Digits;
    if order != [] {
      var front := order[..|order| - 1];
      HeadJsonsAre(heads, front);
      assert forall i :: 0 <= i < |front| ==> front[i] == order[i];
    }
  }

  lemma EntryListIs(s: State)
    ensures EntriesWritten(EntryList(s), s, SortedTexts(s.next.Keys + s.held.Keys))
  {
    hide EntryJsons, SortedTexts, EntriesWritten;
    EntryJsonsAre(s, SortedTexts(s.next.Keys + s.held.Keys));
  }

  lemma HeadListIs(s: State)
    ensures HeadsWritten(HeadList(s), s.heads, SortedTexts(s.heads.Keys))
  {
    hide HeadJsons, SortedTexts, HeadsWritten;
    var chains := SortedTexts(s.heads.Keys);
    assert forall c :: c in chains ==> c in SetOf(chains);
    HeadJsonsAre(s.heads, chains);
  }

  /** What is saved, field by field. */
  lemma ExportIsWritten(s: State)
    ensures SessionWritten(SessionJson(s), s)
  {
    hide EntryList, HeadList, SortedTexts, EntriesWritten, HeadsWritten;
    EntryListIs(s);
    HeadListIs(s);
  }

  // ---- what is read, field by field ----

  /** A field of an object, whose keys are all different once it is parsed. */
  lemma {:induction false} GetIs(fields: seq<Field>, key: string, v: Json)
    requires forall i, j :: 0 <= i < j < |fields| ==> fields[i].key != fields[j].key
    ensures Get(Object(fields), key) == Some(v) <==> Field(key, v) in fields
  {
    if fields != [] {
      var front, last := fields[..|fields| - 1], fields[|fields| - 1];
      GetIs(front, key, v);
      assert fields == front + [last];
      assert forall f :: f in front ==> f.key != last.key;
    }
  }

  /** A number is read where its printed form stands as a text. */
  lemma NumberIs(j: Json, key: string, n: u64)
    ensures NumberAt(j, key) == Some(n) <==> Get(j, key) == Some(Str(Digits(n)))
  {
    hide Get, CanonicalU64, Digits;
    match TextAt(j, key) {
      case None =>
      case Some(t) => CanonicalIsPrinted(t, n);
    }
  }

  ghost predicate SlotIs(j: Json, n: u64) {
    Get(j, "slot") == Some(Str(Digits(n)))
  }

  predicate SaysAccepted(j: Json) {
    Get(j, "accepted") == Some(Bool(true))
  }

  lemma SlotIsRead(j: Json, n: u64)
    ensures NumberAt(j, "slot") == Some(n) <==> SlotIs(j, n)
  {
    NumberIs(j, "slot", n);
  }

  ghost predicate IsNumbered(j: Json) {
    exists n: u64 :: SlotIs(j, n)
  }

  /** The last entry with this number. */
  ghost predicate LastSlot(list: seq<Json>, i: nat, n: u64) {
    i < |list| && SlotIs(list[i], n) && forall k :: i < k < |list| ==> !SlotIs(list[k], n)
  }

  /** These slots are what the list says: every entry has a number, and the last entry for one decides. */
  ghost predicate SlotsRead(list: seq<Json>, slots: Slots) {
    && (forall i :: 0 <= i < |list| ==> IsNumbered(list[i]))
    && (forall n :: n in slots ==> exists i: nat :: LastSlot(list, i, n))
    && forall i: nat, n: u64 :: LastSlot(list, i, n) ==> n in slots && slots[n] == SaysAccepted(list[i])
  }

  lemma NumberedBy(j: Json)
    ensures NumberAt(j, "slot").Some? <==> IsNumbered(j)
    ensures forall n: u64 :: SlotIs(j, n) <==> NumberAt(j, "slot") == Some(n)
  {
    forall n: u64
      ensures SlotIs(j, n) <==> NumberAt(j, "slot") == Some(n)
    {
      SlotIsRead(j, n);
    }
    if NumberAt(j, "slot").Some? {
      assert SlotIs(j, NumberAt(j, "slot").value);
    }
  }

  lemma OneMoreEntryIs(front: seq<Json>, last: Json, i: nat, n: u64)
    ensures LastSlot(front + [last], i, n) <==>
              if SlotIs(last, n) then i == |front| else LastSlot(front, i, n)
  {
    hide SlotIs;
    var list := front + [last];
    assert list[|front|] == last && forall k :: 0 <= k < |front| ==> list[k] == front[k];
  }

  lemma SlotsReadOneMore(front: seq<Json>, last: Json, before: Slots, slot: u64)
    requires SlotsRead(front, before)
    requires forall n: u64 :: SlotIs(last, n) <==> n == slot
    ensures SlotsRead(front + [last], before[slot := SaysAccepted(last)])
  {
    var list, slots := front + [last], before[slot := SaysAccepted(last)];
    forall i: nat, n: u64
      ensures LastSlot(list, i, n) <==> if n == slot then i == |front| else LastSlot(front, i, n)
    {
      OneMoreEntryIs(front, last, i, n);
    }
    assert SlotIs(last, slot);
    assert IsNumbered(last);
    hide SlotIs, LastSlot, SaysAccepted, IsNumbered;
    forall n | n in slots
      ensures exists i: nat :: LastSlot(list, i, n)
    {
      if n == slot {
        assert LastSlot(list, |front|, n);
      } else {
        var i: nat :| LastSlot(front, i, n);
        assert LastSlot(list, i, n);
      }
    }
    forall i: nat, n: u64 | LastSlot(list, i, n)
      ensures n in slots && i < |list| && slots[n] == SaysAccepted(list[i])
    {
      LastSlotThere(list, i, n);
      if n != slot {
        LastSlotThere(front, i, n);
      }
    }
  }

  lemma LastSlotThere(list: seq<Json>, i: nat, n: u64)
    ensures LastSlot(list, i, n) ==> i < |list|
  {
  }

  lemma {:induction false} SlotsFromReads(list: seq<Json>)
    ensures SlotsFrom(list).Some? <==> forall i :: 0 <= i < |list| ==> IsNumbered(list[i])
    ensures SlotsFrom(list).Some? ==> SlotsRead(list, SlotsFrom(list).value)
  {
    if list != [] {
      var front, last := list[..|list| - 1], list[|list| - 1];
      SlotsFromReads(front);
      NumberedBy(last);
      assert list == front + [last];
      hide SlotIs, SaysAccepted, SlotsRead, IsNumbered;
      if SlotsFrom(list).Some? {
        SaysAcceptedIs(last);
        SlotsReadOneMore(front, last, SlotsFrom(front).value, NumberAt(last, "slot").value);
      }
    } else {
      NoSlotsRead();
    }
  }

  lemma SaysAcceptedIs(j: Json)
    ensures SaysAccepted(j) == (Get(j, "accepted") == Some(Bool(true)))
  {
  }

  lemma NoSlotsRead()
    ensures SlotsRead([], map[])
  {
  }

  lemma SlotsReadOnce(list: seq<Json>, a: Slots, b: Slots)
    requires SlotsRead(list, a) && SlotsRead(list, b)
    ensures a == b
  {
    hide LastSlot, SaysAccepted, IsNumbered;
    assert forall n :: n in a ==> n in b && a[n] == b[n];
    assert forall n :: n in b ==> n in a;
  }

  /** The list is read if and only if every entry has a number, and the slots are what its last entries say. */
  lemma SlotsAreExact(list: seq<Json>, slots: Slots)
    ensures SlotsFrom(list) == Some(slots) <==> SlotsRead(list, slots)
  {
    SlotsFromReads(list);
    if SlotsRead(list, slots) {
      assert SlotsFrom(list).Some?;
      SlotsReadOnce(list, SlotsFrom(list).value, slots);
    }
  }

  /** What one entry says of its key; nothing if it says nothing. */
  datatype Said<K, V> = Nothing | Says(key: K, value: V)

  ghost predicate LastSaid<K, V>(said: seq<Said<K, V>>, i: nat, k: K) {
    && i < |said| && said[i].Says? && said[i].key == k
    && forall j :: i < j < |said| ==> !(said[j].Says? && said[j].key == k)
  }

  /** The map holds, for every key anything is said of, what is said last. */
  ghost predicate LastWins<K(!new), V>(said: seq<Said<K, V>>, m: map<K, V>) {
    && (forall k :: k in m ==> exists i: nat :: LastSaid(said, i, k))
    && forall i: nat, k :: LastSaid(said, i, k) ==> k in m && m[k] == said[i].value
  }

  lemma OneMoreSaid<K(!new), V>(said: seq<Said<K, V>>, s: Said<K, V>, m: map<K, V>)
    requires LastWins(said, m)
    ensures LastWins(said + [s], if s.Says? then m[s.key := s.value] else m)
  {
    var all, after := said + [s], if s.Says? then m[s.key := s.value] else m;
    assert all[|said|] == s && forall i :: 0 <= i < |said| ==> all[i] == said[i];
    forall i: nat, k
      ensures LastSaid(all, i, k) <==> if s.Says? && s.key == k then i == |said| else LastSaid(said, i, k)
    {
    }
    forall k | k in after
      ensures exists i: nat :: LastSaid(all, i, k)
    {
      if s.Says? && s.key == k {
        assert LastSaid(all, |said|, k);
      } else {
        var i: nat :| LastSaid(said, i, k);
        assert LastSaid(all, i, k);
      }
    }
  }

  lemma TextIs(j: Json, key: string, t: string)
    ensures TextAt(j, key) == Some(t) <==> Get(j, key) == Some(Str(t))
  {
    hide Get;
  }

  /** The slots of an entry: what its list says, or none where there is no list. */
  ghost predicate HeldRead(item: Json, slots: Slots) {
    match Get(item, "held")
    case Some(Array(list)) => SlotsRead(list, slots)
    case _ => slots == map[]
  }

  lemma HeldIs(item: Json, slots: Slots)
    ensures SlotsAt(item) == Some(slots) <==> HeldRead(item, slots)
  {
    hide Get, SlotsFrom, SlotsRead;
    if Get(item, "held").Some? && Get(item, "held").value.Array? {
      SlotsAreExact(Get(item, "held").value.items, slots);
    }
  }

  /** A key, no next nonce or a number, and no list of slots or one that can be read. */
  ghost predicate EntryRead(item: Json, key: Key, next: Option<u64>, slots: Slots) {
    && Get(item, "key") == Some(Str(key))
    && Get(item, "next") == (match next case None => None case Some(n) => Some(Str(Digits(n))))
    && HeldRead(item, slots)
  }

  function NextSaid(item: Json): Said<Key, u64> {
    if TextAt(item, "key").Some? && NumberAt(item, "next").Some?
    then Says(TextAt(item, "key").value, NumberAt(item, "next").value) else Nothing
  }

  function HeldSaid(item: Json): Said<Key, Slots> {
    if TextAt(item, "key").Some? && SlotsAt(item).Some? && SlotsAt(item).value != map[]
    then Says(TextAt(item, "key").value, SlotsAt(item).value) else Nothing
  }

  lemma SaidIs(item: Json, key: Key, next: Option<u64>, slots: Slots)
    requires EntryRead(item, key, next, slots)
    ensures NextSaid(item) == match next case None => Nothing case Some(n) => Says(key, n)
    ensures HeldSaid(item) == if slots == map[] then Nothing else Says(key, slots)
  {
    TextIs(item, "key", key);
    HeldIs(item, slots);
    if next.Some? {
      NumberIs(item, "next", next.value);
    }
    hide Get, SlotsAt, HeldRead, Digits, CanonicalU64;
  }

  lemma WithEntryIs(e: Entries, item: Json)
    ensures WithEntry(e, item).Some? <==> exists key, next, slots :: EntryRead(item, key, next, slots)
    ensures WithEntry(e, item).Some? ==>
              WithEntry(e, item).value
              == Entries(if NextSaid(item).Says? then e.next[NextSaid(item).key := NextSaid(item).value] else e.next,
                         if HeldSaid(item).Says? then e.held[HeldSaid(item).key := HeldSaid(item).value] else e.held)
  {
    hide Get, SlotsAt, HeldRead, Digits, CanonicalU64;
    if WithEntry(e, item).Some? {
      var key, slots := TextAt(item, "key").value, SlotsAt(item).value;
      TextIs(item, "key", key);
      HeldIs(item, slots);
      var next := if Get(item, "next").Some? then NumberAt(item, "next") else None;
      if next.Some? {
        NumberIs(item, "next", next.value);
      }
      NothingSaid(item);
      assert EntryRead(item, key, next, slots);
    }
    if key, next, slots :| EntryRead(item, key, next, slots) {
      TextIs(item, "key", key);
      HeldIs(item, slots);
      if next.Some? {
        NumberIs(item, "next", next.value);
      }
    }
  }

  lemma NothingSaid(item: Json)
    ensures Get(item, "next").None? ==> NumberAt(item, "next").None?
  {
    hide Get;
  }

  function NextsSaid(items: seq<Json>): (r: seq<Said<Key, u64>>)
    ensures |r| == |items|
  {
    seq(|items|, i requires 0 <= i < |items| => NextSaid(items[i]))
  }

  function HeldsSaid(items: seq<Json>): (r: seq<Said<Key, Slots>>)
    ensures |r| == |items|
  {
    seq(|items|, i requires 0 <= i < |items| => HeldSaid(items[i]))
  }

  ghost predicate IsEntry(item: Json) {
    exists key, next, slots :: EntryRead(item, key, next, slots)
  }

  ghost predicate AreEntries(items: seq<Json>) {
    forall i :: 0 <= i < |items| ==> IsEntry(items[i])
  }

  /**
   * The entries are read if and only if each one has a key, no next nonce or a number, and readable slots;
   * for every key the last next nonce and the last slots that are not empty win.
   */
  lemma {:induction false} EntriesAreExact(items: seq<Json>)
    ensures EntriesFrom(items).Some? <==> AreEntries(items)
    ensures EntriesFrom(items).Some? ==>
              && LastWins(NextsSaid(items), EntriesFrom(items).value.next)
              && LastWins(HeldsSaid(items), EntriesFrom(items).value.held)
  {
    if items != [] {
      var front, last := items[..|items| - 1], items[|items| - 1];
      EntriesAreExact(front);
      hide NextSaid, HeldSaid, EntryRead, LastWins, WithEntry, NextsSaid, HeldsSaid, IsEntry, AreEntries;
      SaidLast(items);
      AllEntriesLast(items);
      if EntriesFrom(front).Some? {
        var e := EntriesFrom(front).value;
        WithEntryMeans(e, last);
        OneMoreSaid(NextsSaid(front), NextSaid(last), e.next);
        OneMoreSaid(HeldsSaid(front), HeldSaid(last), e.held);
      }
    } else {
      NothingWins(items);
    }
  }

  lemma NothingWins(items: seq<Json>)
    requires items == []
    ensures LastWins(NextsSaid(items), map[]) && LastWins(HeldsSaid(items), map[])
  {
  }

  lemma SaidLast(items: seq<Json>)
    requires items != []
    ensures NextsSaid(items) == NextsSaid(items[..|items| - 1]) + [NextSaid(items[|items| - 1])]
    ensures HeldsSaid(items) == HeldsSaid(items[..|items| - 1]) + [HeldSaid(items[|items| - 1])]
  {
    hide NextSaid, HeldSaid;
  }

  lemma AllEntriesLast(items: seq<Json>)
    requires items != []
    ensures AreEntries(items) <==> AreEntries(items[..|items| - 1]) && IsEntry(items[|items| - 1])
  {
    hide IsEntry;
    var front := items[..|items| - 1];
    assert forall i :: 0 <= i < |front| ==> front[i] == items[i];
  }

  lemma WithEntryMeans(e: Entries, item: Json)
    ensures WithEntry(e, item).Some? <==> IsEntry(item)
    ensures WithEntry(e, item).Some? ==>
              WithEntry(e, item).value
              == Entries(if NextSaid(item).Says? then e.next[NextSaid(item).key := NextSaid(item).value] else e.next,
                         if HeldSaid(item).Says? then e.held[HeldSaid(item).key := HeldSaid(item).value] else e.held)
  {
    hide NextSaid, HeldSaid, EntryRead, WithEntry;
    WithEntryIs(e, item);
  }

  ghost predicate HeadRead(j: Json, h: ChainHead) {
    && Get(j, "chain") == Some(Str(h.chain))
    && Get(j, "height") == Some(Str(Digits(h.head.height)))
    && Get(j, "at") == Some(Str(Digits(h.head.at)))
  }

  lemma HeadIs(j: Json, h: ChainHead)
    ensures HeadFrom(j) == Some(h) <==> HeadRead(j, h)
  {
    TextIs(j, "chain", h.chain);
    NumberIs(j, "height", h.head.height);
    NumberIs(j, "at", h.head.at);
    hide Get, TextAt, NumberAt, Digits;
  }

  ghost predicate HeadsRead(list: seq<Json>, heads: seq<ChainHead>) {
    |heads| == |list| && forall i :: 0 <= i < |list| ==> HeadRead(list[i], heads[i])
  }

  lemma HeadsFromLast(list: seq<Json>, heads: seq<ChainHead>)
    requires list != []
    ensures HeadsFrom(list) == Some(heads) <==>
              && heads != [] && HeadsFrom(list[..|list| - 1]) == Some(heads[..|heads| - 1])
              && HeadFrom(list[|list| - 1]) == Some(heads[|heads| - 1])
  {
    hide HeadFrom;
    if heads != [] {
      assert heads == heads[..|heads| - 1] + [heads[|heads| - 1]];
    }
  }

  lemma HeadsReadLast(list: seq<Json>, heads: seq<ChainHead>)
    requires list != []
    ensures HeadsRead(list, heads) <==>
              && heads != [] && HeadsRead(list[..|list| - 1], heads[..|heads| - 1])
              && HeadRead(list[|list| - 1], heads[|heads| - 1])
  {
    hide HeadRead;
    if heads != [] && |heads| == |list| {
      var n := |list| - 1;
      assert forall i :: 0 <= i < n ==> list[..n][i] == list[i] && heads[..n][i] == heads[i];
    }
  }

  /** The heads are read one by one, all of them or none. */
  lemma {:induction false} HeadsAreExact(list: seq<Json>, heads: seq<ChainHead>)
    ensures HeadsFrom(list) == Some(heads) <==> HeadsRead(list, heads)
    decreases |list|
  {
    if list != [] {
      HeadsFromLast(list, heads);
      HeadsReadLast(list, heads);
      hide HeadsFrom, HeadsRead, HeadFrom, HeadRead;
      if heads != [] {
        HeadsAreExact(list[..|list| - 1], heads[..|heads| - 1]);
        HeadIs(list[|list| - 1], heads[|heads| - 1]);
      }
    }
  }

  ghost predicate Candidate(heads: map<string, SigningSession.Head>, list: seq<ChainHead>, c: string,
                            head: SigningSession.Head)
  {
    (c in heads && heads[c] == head) || ChainHead(c, head) in list
  }

  /** Each chain ends with a head that was there or in the list, and no other of them is higher; ties stay. */
  lemma {:induction false} NotedAreHighest(heads: map<string, SigningSession.Head>, list: seq<ChainHead>, c: string)
    ensures c in NotedHeads(heads, list) <==> exists h :: Candidate(heads, list, c, h)
    ensures c in NotedHeads(heads, list) ==>
              && Candidate(heads, list, c, NotedHeads(heads, list)[c])
              && (forall h :: Candidate(heads, list, c, h) ==> h.height <= NotedHeads(heads, list)[c].height)
              && (c in heads && heads[c].height == NotedHeads(heads, list)[c].height
                  ==> NotedHeads(heads, list)[c] == heads[c])
    decreases |list|
  {
    if list == [] {
      if c in heads {
        assert Candidate(heads, list, c, heads[c]);
      }
    } else {
      var front, last := list[..|list| - 1], list[|list| - 1];
      NotedAreHighest(heads, front, c);
      assert list == front + [last];
      forall h
        ensures Candidate(heads, list, c, h) <==> Candidate(heads, front, c, h) || last == ChainHead(c, h)
      {
      }
      if last.chain == c {
        assert Candidate(heads, list, c, last.head);
        assert c in heads ==> Candidate(heads, front, c, heads[c]);
      }
    }
  }

  // ---- the whole import ----

  /** A version 1 session with readable entries, and readable heads if it has any. */
  ghost predicate IsSaved(j: Json, items: seq<Json>, heads: seq<ChainHead>) {
    && Get(j, "version") == Some(Int(1))
    && Get(j, "keys") == Some(Array(items)) && AreEntries(items)
    && match Get(j, "heads")
       case None => heads == []
       case Some(Array(list)) => HeadsRead(list, heads)
       case _ => false
  }

  /**
   * What an import that succeeds leaves: of two next nonces the higher, of two entries for one slot the
   * saved one, of two heads the higher; what is reserved stays.
   */
  ghost predicate ImportLeaves(s: State, t: State, items: seq<Json>, heads: seq<ChainHead>) {
    && t.reserved == s.reserved
    && t.heads == NotedHeads(s.heads, heads)
    && exists next, held ::
         && LastWins(NextsSaid(items), next) && LastWins(HeldsSaid(items), held)
         && ImportChanges(s, t.(heads := s.heads), Saved(next, held, map[]))
  }

  /** A text is imported if and only if it is a saved session, and it leaves what it should. */
  lemma ImportIsExact(s: State, text: string)
    ensures Imported(s, text).ok <==>
              Parsing(text).Some? && exists items, heads :: IsSaved(Parsing(text).value, items, heads)
    ensures Imported(s, text).ok ==>
              exists items, heads ::
                IsSaved(Parsing(text).value, items, heads) && ImportLeaves(s, Imported(s, text).state, items, heads)
  {
    if Parsing(text).Some? {
      var j := Parsing(text).value;
      hide Parsing, Get, EntriesFrom, AreEntries, HeadsRead, NotedHeads, ImportLeaves;
      SavedIsRead(j);
      if Imported(s, text).ok {
        var items, heads := Get(j, "keys").value.items, SavedHeads(j).value;
        assert IsSaved(j, items, heads);
        EntriesAreExact(items);
        LeftByImport(s, items, EntriesFrom(items).value, heads);
      }
    }
  }

  lemma SavedIsRead(j: Json)
    ensures forall items, heads :: IsSaved(j, items, heads) <==>
              && Get(j, "version") == Some(Int(1)) && Get(j, "keys") == Some(Array(items))
              && EntriesFrom(items).Some? && SavedHeads(j) == Some(heads)
  {
    forall items: seq<Json>, heads: seq<ChainHead>
      ensures IsSaved(j, items, heads) <==>
                && Get(j, "version") == Some(Int(1)) && Get(j, "keys") == Some(Array(items))
                && EntriesFrom(items).Some? && SavedHeads(j) == Some(heads)
    {
      hide Get, EntriesFrom, AreEntries, HeadsRead, HeadsFrom;
      EntriesAreExact(items);
      match Get(j, "heads") {
        case Some(Array(list)) => HeadsAreExact(list, heads);
        case _ =>
      }
    }
  }

  lemma LeftByImport(s: State, items: seq<Json>, e: Entries, heads: seq<ChainHead>)
    requires LastWins(NextsSaid(items), e.next) && LastWins(HeldsSaid(items), e.held)
    ensures ImportLeaves(s, State(HigherNext(s.next, e.next), ExtendedHeld(s.held, e.held), s.reserved,
                                  NotedHeads(s.heads, heads)), items, heads)
  {
    var saved := Saved(e.next, e.held, map[]);
    MergeChanges(s, saved);
    MergedHeld(s, saved);
    hide LastWins, NotedHeads, ImportChanges;
    assert Merged(s, saved).heads == s.heads;
    assert Merged(s, saved)
        == State(HigherNext(s.next, e.next), ExtendedHeld(s.held, e.held), s.reserved, s.heads);
  }
}
