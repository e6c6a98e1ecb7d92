/** The values the parser can return: not nested too deep, no key repeated. */
module JsonLimits {
  import opened Machine
  import opened Json
  import opened JsonSyntax

  // ---- which values can be read back ----

  /** Within `depth` open containers the value stays under the limit and repeats no key. */
  predicate Fits(j: Json, depth: nat) {
    match j
    case Array(items) => depth + 1 <= MAX_DEPTH && ItemsFit(items, depth + 1)
    case Object(fields) => depth + 1 <= MAX_DEPTH && FieldsFit(fields, depth + 1, {})
    case _ => true
  }

  predicate ItemsFit(items: seq<Json>, depth: nat) {
    items != [] ==> Fits(items[0], depth) && ItemsFit(items[1..], depth)
  }

  predicate FieldsFit(fields: seq<Field>, depth: nat, seen: set<string>) {
    fields != [] ==>
      && fields[0].key !in seen
      && Fits(fields[0].value, depth)
      && FieldsFit(fields[1..], depth, seen + {fields[0].key})
  }

  lemma {:induction false} FitsMeaning(j: Json, depth: nat)
    requires depth <= MAX_DEPTH
    ensures Fits(j, depth) <==> depth + Nesting(j) <= MAX_DEPTH && UniqueKeys(j)
  {
    match j {
      case Array(items) =>
        if depth + 1 <= MAX_DEPTH {
          ItemsFitMeaning(items, depth + 1);
        }
      case Object(fields) =>
        if depth + 1 <= MAX_DEPTH {
          FieldsFitMeaning(fields, depth + 1, {});
        }
      case _ =>
    }
  }

  lemma {:induction false} ItemsFitMeaning(items: seq<Json>, depth: nat)
    requires depth <= MAX_DEPTH
    ensures ItemsFit(items, depth) <==>
              depth + ItemNesting(items) <= MAX_DEPTH && forall i :: 0 <= i < |items| ==> UniqueKeys(items[i])
  {
    if items != [] {
      FitsMeaning(items[0], depth);
      ItemsFitMeaning(items[1..], depth);
      assert items == [items[0]] + items[1..];
    }
  }

  lemma {:induction false} FieldsFitMeaning(fields: seq<Field>, depth: nat, seen: set<string>)
    requires depth <= MAX_DEPTH
    ensures FieldsFit(fields, depth, seen) <==>
              && depth + FieldNesting(fields) <= MAX_DEPTH
              && NoDuplicates(Keys(fields))
              && (forall i :: 0 <= i < |fields| ==> fields[i].key !in seen)
              && (forall i :: 0 <= i < |fields| ==> UniqueKeys(fields[i].value))
  {
    if fields != [] {
      var rest := fields[1..];
      FitsMeaning(fields[0].value, depth);
      FieldsFitMeaning(rest, depth, seen + {fields[0].key});
      assert fields == [fields[0]] + rest;
      assert Keys(fields) == [fields[0].key] + Keys(rest);
      NoDuplicatesCons(fields[0].key, Keys(rest));
      assert fields[0].key in Keys(rest) <==> exists i :: 0 <= i < |rest| && rest[i].key == fields[0].key by {
        if i :| 0 <= i < |rest| && rest[i].key == fields[0].key {
          assert Keys(rest)[i] == fields[0].key;
        }
      }
    }
  }

  // ---- what the parser can return ----

  lemma {:induction false} AcceptedFits(s: Bytes, depth: nat)
    ensures Value(s, depth).Done? ==> Fits(Value(s, depth).value, depth)
    decreases |s|, 2
  {
    var t := SkipSpace(s);
    if t != [] && depth + 1 <= MAX_DEPTH {
      if t[0] == OPEN_BRACE {
        var u := SkipSpace(t[1..]);
        AcceptedFieldsFit(u, depth + 1, {});
      } else if t[0] == OPEN_BRACKET {
        var u := SkipSpace(t[1..]);
        AcceptedItemsFit(u, depth + 1);
      }
    }
  }

  lemma {:induction false} AcceptedItemsFit(s: Bytes, depth: nat)
    ensures ItemsFrom(s, depth).Done? ==> ItemsFit(ItemsFrom(s, depth).value, depth)
    decreases |s|, 3
  {
    AcceptedFits(s, depth);
    if Value(s, depth).Done? {
      var item := Value(s, depth).value;
      var x := SkipSpace(Value(s, depth).rest);
      if x != [] && x[0] == COMMA && ItemsFrom(x[1..], depth).Done? {
        AcceptedItemsFit(x[1..], depth);
        var more := ItemsFrom(x[1..], depth).value;
        assert ([item] + more)[1..] == more;
      } else if x != [] && x[0] == CLOSE_BRACKET {
        assert [item][1..] == [];
      }
    }
  }

  lemma {:induction false} AcceptedFieldsFit(s: Bytes, depth: nat, seen: set<string>)
    ensures FieldsFrom(s, depth, seen).Done? ==> FieldsFit(FieldsFrom(s, depth, seen).value, depth, seen)
    decreases |s|, 0
  {
    if FieldsFrom(s, depth, seen).Done? {
      var name := StringTail(SkipSpace(s)[1..]);
      var v := SkipSpace(name.rest);
      AcceptedFits(v[1..], depth);
      var value := Value(v[1..], depth);
      var f := Field(name.value, value.value);
      var x := SkipSpace(value.rest);
      hide Value, StringTail, Fits;
      assert FieldsAfter(f, x, depth, seen).Done?;
      if x[0] == COMMA {
        AcceptedFieldsFit(x[1..], depth, seen + {f.key});
        var more := FieldsFrom(x[1..], depth, seen + {f.key}).value;
        assert ([f] + more)[1..] == more;
      } else {
        assert [f][1..] == [];
      }
    }
  }

  // ---- what is counted ----

  /** Every list and every object counts once, whatever is in it. */
  lemma {:induction false} NestingCounts(items: seq<Json>, fields: seq<Field>, n: nat)
    ensures Nesting(Array(items)) <= n + 1 <==> forall i :: 0 <= i < |items| ==> Nesting(items[i]) <= n
    ensures Nesting(Object(fields)) <= n + 1 <==> forall i :: 0 <= i < |fields| ==> Nesting(fields[i].value) <= n
    ensures Nesting(Array([])) == Nesting(Object([])) == 1
    decreases |items| + |fields|
  {
    if items != [] {
      NestingCounts(items[1..], [], n);
      assert items == [items[0]] + items[1..];
    }
    if fields != [] {
      NestingCounts([], fields[1..], n);
      assert fields == [fields[0]] + fields[1..];
    }
  }

  /** No object at any depth has one key twice. */
  lemma UniqueKeysMeans(items: seq<Json>, fields: seq<Field>)
    ensures UniqueKeys(Array(items)) <==> forall i :: 0 <= i < |items| ==> UniqueKeys(items[i])
    ensures UniqueKeys(Object(fields)) <==>
              && (forall i, j :: 0 <= i < j < |fields| ==> fields[i].key != fields[j].key)
              && (forall i :: 0 <= i < |fields| ==> UniqueKeys(fields[i].value))
  {
    var keys := Keys(fields);
    assert forall i :: 0 <= i < |fields| ==> keys[i] == fields[i].key;
    if NoDuplicates(keys) {
      forall i, j | 0 <= i < j < |fields|
        ensures fields[i].key != fields[j].key
      {
        assert keys[i] != keys[j];
      }
    }
  }
}
