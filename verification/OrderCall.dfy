/** Laying a signed order out in the contract's memory. */
module OrderCall {
  import opened Machine
  import opened Sorting
  import opened OrderMessage

  const CONTRACT_CONTEXT_BYTES: nat := 152
  const DEFAULT_REGION_OFFSET: u64 := 8192
  const MAX_USER_MEMORY: nat := 65536

  type PublicKey = b: Bytes | |b| == 1952 witness seq(1952, _ => 0)
  type Signature = b: Bytes | |b| == 3309 witness seq(3309, _ => 0)

  // ---- images: what a list of writes leaves in a cleared buffer ----

  /** Some bytes and the place they are written to. */
  datatype Piece = Piece(offset: nat, bytes: Bytes)

  function EndOf(p: Piece): nat {
    p.offset + |p.bytes|
  }

  predicate PiecesApart(p: Piece, q: Piece) {
    EndOf(p) <= q.offset || EndOf(q) <= p.offset
  }

  predicate Covers(p: Piece, i: nat) {
    p.offset <= i < EndOf(p)
  }

  ghost predicate AllApart(pieces: seq<Piece>) {
    forall i, j :: 0 <= i < j < |pieces| ==> PiecesApart(pieces[i], pieces[j])
  }

  ghost predicate ReadsBack(mem: Bytes, p: Piece) {
    EndOf(p) <= |mem| && mem[p.offset..EndOf(p)] == p.bytes
  }

  ghost predicate Covered(pieces: seq<Piece>, i: nat) {
    exists k :: 0 <= k < |pieces| && Covers(pieces[k], i)
  }

  /** Every piece reads back from its place, and everything else is zero. */
  ghost predicate IsImage(mem: Bytes, pieces: seq<Piece>) {
    && (forall k :: 0 <= k < |pieces| ==> ReadsBack(mem, pieces[k]))
    && (forall i :: 0 <= i < |mem| && !Covered(pieces, i) ==> mem[i] == 0)
  }

  function Overwritten(mem: Bytes, p: Piece): (r: Bytes)
    requires EndOf(p) <= |mem|
    ensures |r| == |mem|
  {
    mem[..p.offset] + p.bytes + mem[EndOf(p)..]
  }

  /** Writing one more piece, apart from all written before, extends the image. */
  lemma ImageExtends(mem: Bytes, pieces: seq<Piece>, p: Piece)
    requires IsImage(mem, pieces) && EndOf(p) <= |mem|
    requires forall k :: 0 <= k < |pieces| ==> PiecesApart(pieces[k], p)
    ensures IsImage(Overwritten(mem, p), pieces + [p])
  {
    var after, all := Overwritten(mem, p), pieces + [p];
    forall k | 0 <= k < |all|
      ensures ReadsBack(after, all[k])
    {
      if k < |pieces| {
        assert ReadsBack(mem, pieces[k]);
        var q := pieces[k];
        assert after[q.offset..EndOf(q)] == mem[q.offset..EndOf(q)];
      } else {
        assert after[p.offset..EndOf(p)] == p.bytes;
      }
    }
    forall i | 0 <= i < |after| && !Covered(all, i)
      ensures after[i] == 0
    {
      assert !Covers(p, i) by {
        assert all[|pieces|] == p;
      }
      forall k | 0 <= k < |pieces|
        ensures !Covers(pieces[k], i)
      {
        assert all[k] == pieces[k];
      }
    }
  }

  /** An image is determined by its pieces: the order they were written in cannot matter. */
  lemma ImageIsUnique(m1: Bytes, m2: Bytes, pieces: seq<Piece>, shuffled: seq<Piece>)
    requires |m1| == |m2| && multiset(pieces) == multiset(shuffled)
    requires IsImage(m1, pieces) && IsImage(m2, shuffled)
    ensures m1 == m2
  {
    SameElements(pieces, shuffled);
    forall i | 0 <= i < |m1|
      ensures m1[i] == m2[i]
    {
      if k :| 0 <= k < |pieces| && Covers(pieces[k], i) {
        assert pieces[k] in SetOf(shuffled);
        var l :| 0 <= l < |shuffled| && shuffled[l] == pieces[k];
        ReadsBackAt(m1, pieces[k], i);
        ReadsBackAt(m2, shuffled[l], i);
      } else {
        forall l | 0 <= l < |shuffled|
          ensures !Covers(shuffled[l], i)
        {
          assert shuffled[l] in SetOf(pieces);
        }
      }
    }
  }

  lemma ReadsBackAt(mem: Bytes, p: Piece, i: nat)
    requires ReadsBack(mem, p) && Covers(p, i)
    ensures i < |mem| && mem[i] == p.bytes[i - p.offset]
  {
    assert mem[p.offset..EndOf(p)][i - p.offset] == mem[i];
  }

  // ---- spans and the check of neighbours ----

  datatype Span = Span(offset: u64, width: nat)

  predicate SpansApart(a: Span, b: Span) {
    a.offset + a.width <= b.offset || b.offset + b.width <= a.offset
  }

  ghost predicate AllSpansApart(spans: seq<Span>) {
    forall i, j :: 0 <= i < j < |spans| ==> SpansApart(spans[i], spans[j])
  }

  ghost predicate Positive(spans: seq<Span>) {
    forall s :: s in spans ==> s.width > 0
  }

  predicate Earlier(a: Span, b: Span) {
    a.offset < b.offset
  }

  /** Spans of positive width are apart exactly when none is listed twice and any two different ones are. */
  lemma ApartAsSet(spans: seq<Span>)
    requires Positive(spans)
    ensures AllSpansApart(spans) <==>
              NoDuplicates(spans) && forall a, b :: a in spans && b in spans && a != b ==> SpansApart(a, b)
  {
    if AllSpansApart(spans) {
      forall a, b | a in spans && b in spans && a != b
        ensures SpansApart(a, b)
      {
        var i :| 0 <= i < |spans| && spans[i] == a;
        var j :| 0 <= j < |spans| && spans[j] == b;
        assert if i < j then SpansApart(spans[i], spans[j]) else SpansApart(spans[j], spans[i]);
      }
      forall i, j | 0 <= i < j < |spans|
        ensures spans[i] != spans[j]
      {
        assert SpansApart(spans[i], spans[j]);
        assert spans[i] in spans;
      }
    }
  }

  /** Whether spans overlap does not depend on the order they are listed in. */
  lemma ApartInAnyOrder(a: seq<Span>, b: seq<Span>)
    requires multiset(a) == multiset(b) && Positive(a)
    ensures Positive(b)
    ensures AllSpansApart(a) <==> AllSpansApart(b)
  {
    SameElements(a, b);
    assert forall s :: s in a <==> s in SetOf(a);
    assert forall s :: s in b <==> s in SetOf(b);
    ApartAsSet(a);
    ApartAsSet(b);
  }

  ghost predicate NeighboursApart(spans: seq<Span>, n: nat)
    requires n <= |spans|
  {
    forall i :: 0 < i < n ==> spans[i - 1].offset + spans[i - 1].width <= spans[i].offset
  }

  /** Among spans sorted by offset, looking at neighbours is enough. */
  lemma NeighboursSuffice(spans: seq<Span>)
    requires Ranked(spans, Earlier) && Positive(spans)
    ensures AllSpansApart(spans) <==>
              NeighboursApart(spans, |spans|)
  {
    if AllSpansApart(spans) {
      forall i | 0 < i < |spans|
        ensures spans[i - 1].offset + spans[i - 1].width <= spans[i].offset
      {
        assert SpansApart(spans[i - 1], spans[i]);
        assert !Earlier(spans[i], spans[i - 1]);
        assert spans[i] in spans;
      }
    }
    if NeighboursApart(spans, |spans|) {
      forall i, j | 0 <= i < j < |spans|
        ensures SpansApart(spans[i], spans[j])
      {
        assert spans[i].offset + spans[i].width <= spans[i + 1].offset by {
          assert 0 < i + 1 < |spans|;
          assert spans[i + 1 - 1] == spans[i];
        }
        if i + 1 < j {
          assert !Earlier(spans[j], spans[i + 1]);
        }
      }
    }
  }

  /**
   * The overlap check both builders run: sort by offset, compare neighbours. It is exact: it passes
   * exactly when no two of the spans, in any order, intersect.
   */
  method CheckSpans(spans: seq<Span>) returns (ok: bool)
    requires Positive(spans) && forall s :: s in spans ==> s.offset + s.width <= U64_MAX
    ensures ok <==> AllSpansApart(spans)
  {
    hide AllSpansApart, Sorted;
    var sorted := Sorted(spans, Earlier);
    SortingDecides(spans);
    var i := 1;
    while i < |sorted|
      invariant 1 <= i
      invariant NeighboursApart(sorted, if i < |sorted| then i else |sorted|)
    {
      if sorted[i - 1].offset + sorted[i - 1].width > U64_MAX {
        return false;
      }
      if sorted[i - 1].offset + sorted[i - 1].width > sorted[i].offset {
        return false;
      }
      i := i + 1;
    }
    return true;
  }

  lemma SortingDecides(spans: seq<Span>)
    requires Positive(spans) && forall s :: s in spans ==> s.offset + s.width <= U64_MAX
    ensures var sorted := Sorted(spans, Earlier);
            && (AllSpansApart(spans) <==> NeighboursApart(sorted, |sorted|))
            && forall i :: 0 <= i < |sorted| ==> sorted[i].offset + sorted[i].width <= U64_MAX
  {
    var sorted := Sorted(spans, Earlier);
    SortedRanked(spans, Earlier);
    ApartInAnyOrder(spans, sorted);
    NeighboursSuffice(sorted);
    hide AllSpansApart, NeighboursApart, Sorted;
    forall i | 0 <= i < |sorted|
      ensures sorted[i].offset + sorted[i].width <= U64_MAX
    {
      assert sorted[i] in multiset(sorted);
      assert sorted[i] in spans;
    }
  }

  // ---- the calls ----

  datatype FieldArg = FieldArg(offset: u64, value: FieldValue)

  function PieceOf(f: FieldArg): Piece {
    Piece(f.offset, FieldBytes(f.value))
  }

  function FieldPieces(fields: seq<FieldArg>): (r: seq<Piece>)
    ensures |r| == |fields| && forall i :: 0 <= i < |fields| ==> r[i] == PieceOf(fields[i])
  {
    seq(|fields|, i requires 0 <= i < |fields| => PieceOf(fields[i]))
  }

  function Values(fields: seq<FieldArg>): (r: seq<FieldValue>)
    ensures |r| == |fields| && forall i :: 0 <= i < |fields| ==> r[i] == fields[i].value
  {
    seq(|fields|, i requires 0 <= i < |fields| => fields[i].value)
  }

  /** The furthest byte any piece reaches, and at least the end of the host call context. */
  function Reach(pieces: seq<Piece>): (n: nat)
    ensures n >= CONTRACT_CONTEXT_BYTES
    ensures forall i :: 0 <= i < |pieces| ==> EndOf(pieces[i]) <= n
  {
    if pieces == [] then CONTRACT_CONTEXT_BYTES
    else
      assert pieces == pieces[..|pieces| - 1] + [pieces[|pieces| - 1]];
      Max(Reach(pieces[..|pieces| - 1]), EndOf(pieces[|pieces| - 1]))
  }

  predicate FieldAllowed(f: FieldArg) {
    FitsWindow(f.value) && f.offset >= CONTRACT_CONTEXT_BYTES
  }

  function SpansOf(pieces: seq<Piece>): (r: seq<Span>)
    requires forall i :: 0 <= i < |pieces| ==> pieces[i].offset <= U64_MAX
    ensures |r| == |pieces|
    ensures forall i :: 0 <= i < |pieces| ==> r[i] == Span(pieces[i].offset, |pieces[i].bytes|)
  {
    seq(|pieces|, i requires 0 <= i < |pieces| => Span(pieces[i].offset, |pieces[i].bytes|))
  }

  lemma SpansSayApart(pieces: seq<Piece>)
    requires forall i :: 0 <= i < |pieces| ==> pieces[i].offset <= U64_MAX
    ensures AllSpansApart(SpansOf(pieces)) <==> AllApart(pieces)
  {
    var spans := SpansOf(pieces);
    forall i, j | 0 <= i < j < |pieces|
      ensures SpansApart(spans[i], spans[j]) <==> PiecesApart(pieces[i], pieces[j])
    {
    }
  }

  /** The bounds and overlap checks on pieces that were already measured. */
  method CheckPieces(spans: seq<Span>, ghost pieces: seq<Piece>) returns (ok: bool)
    requires forall i :: 0 <= i < |pieces| ==>
               pieces[i].offset <= U64_MAX && |pieces[i].bytes| > 0 && EndOf(pieces[i]) <= U64_MAX
    requires spans == SpansOf(pieces)
    ensures ok <==> AllApart(pieces)
  {
    SpansSayApart(pieces);
    ok := CheckSpans(spans);
  }

  /** `put_bytes`, and `put_word` with the bytes of its word: nothing is written past the end. */
  method PutBytes(memory: array<byte>, offset: u64, bytes: Bytes) returns (ok: bool)
    modifies memory
    ensures ok <==> EndOf(Piece(offset, bytes)) <= memory.Length
    ensures memory[..] == if ok then Overwritten(old(memory[..]), Piece(offset, bytes)) else old(memory[..])
  {
    if offset + |bytes| > memory.Length {
      return false;
    }
    CopyFromSlice(memory, offset, bytes);
    return true;
  }

  /** `memory[start..start + n].copy_from_slice(bytes)` */
  method CopyFromSlice(memory: array<byte>, start: nat, bytes: Bytes)
    requires start + |bytes| <= memory.Length
    modifies memory
    ensures memory[..] == Overwritten(old(memory[..]), Piece(start, bytes))
  {
    forall i | 0 <= i < |bytes| {
      memory[start + i] := bytes[i];
    }
    assert memory[..start] == old(memory[..start]);
    assert memory[start..start + |bytes|] == bytes;
    assert memory[start + |bytes|..] == old(memory[start + |bytes|..]);
    assert memory[..] == memory[..start] + memory[start..start + |bytes|] + memory[start + |bytes|..];
  }

  lemma PrefixImage(mem: Bytes, pieces: seq<Piece>, i: nat)
    requires i < |pieces| && AllApart(pieces) && IsImage(mem, pieces[..i]) && EndOf(pieces[i]) <= |mem|
    ensures IsImage(Overwritten(mem, pieces[i]), pieces[..i + 1])
  {
    assert pieces[..i + 1] == pieces[..i] + [pieces[i]];
    ImageExtends(mem, pieces[..i], pieces[i]);
  }

  lemma NothingWritten(mem: Bytes)
    requires forall i :: 0 <= i < |mem| ==> mem[i] == 0
    ensures IsImage(mem, [])
  {
  }

  /** Write every field, the first of which is piece `at`. */
  method PutFields(memory: array<byte>, fields: seq<FieldArg>, ghost pieces: seq<Piece>, ghost at: nat) returns (ok: bool)
    requires at + |fields| <= |pieces| && pieces[at..at + |fields|] == FieldPieces(fields)
    requires AllApart(pieces) && Reach(pieces) <= memory.Length
    requires IsImage(memory[..], pieces[..at])
    modifies memory
    ensures ok && IsImage(memory[..], pieces[..at + |fields|])
  {
    hide IsImage, AllApart, Overwritten, Reach;
    for i := 0 to |fields|
      invariant IsImage(memory[..], pieces[..at + i])
    {
      assert pieces[at + i] == pieces[at..at + |fields|][i] == PieceOf(fields[i]);
      PrefixImage(memory[..], pieces, at + i);
      var done := PutBytes(memory, fields[i].offset, FieldBytes(fields[i].value));
      if !done {
        return false;
      }
    }
    return true;
  }

  // ---- an unsigned call ----

  ghost predicate ArgsAllowed(args: seq<FieldArg>) {
    && (forall f :: f in args ==> FieldAllowed(f))
    && Reach(FieldPieces(args)) <= MAX_USER_MEMORY
    && AllApart(FieldPieces(args))
  }

  /** The loop of `build_call_args` that checks each argument and measures the memory they need. */
  method MeasureArgs(args: seq<FieldArg>) returns (r: Option<nat>)
    ensures r.Some? <==> forall i :: 0 <= i < |args| ==> FieldAllowed(args[i]) && EndOf(PieceOf(args[i])) <= U64_MAX
    ensures r.Some? ==> r.value == Reach(FieldPieces(args))
  {
    hide Reach, FieldBytes;
    ghost var pieces := FieldPieces(args);
    var memLen := CONTRACT_CONTEXT_BYTES;
    NoReach();
    assert pieces[..0] == [];
    for i := 0 to |args|
      invariant forall k :: 0 <= k < i ==> FieldAllowed(args[k]) && EndOf(PieceOf(args[k])) <= U64_MAX
      invariant memLen == Reach(pieces[..i])
    {
      if !FitsWindow(args[i].value) || args[i].offset < CONTRACT_CONTEXT_BYTES {
        return None;
      }
      var end := args[i].offset + Width(args[i].value);
      if end > U64_MAX {
        return None;
      }
      ReachStep(pieces, i);
      memLen := Max(memLen, end);
    }
    assert pieces[..|args|] == pieces;
    return Some(memLen);
  }

  lemma NoReach()
    ensures Reach([]) == CONTRACT_CONTEXT_BYTES
  {
  }

  lemma ArgsMeasured(args: seq<FieldArg>)
    ensures ArgsAllowed(args) <==>
              && (forall i :: 0 <= i < |args| ==> FieldAllowed(args[i]) && EndOf(PieceOf(args[i])) <= U64_MAX)
              && Reach(FieldPieces(args)) <= MAX_USER_MEMORY
              && AllApart(FieldPieces(args))
  {
    hide AllApart, FieldBytes;
    var pieces := FieldPieces(args);
    assert forall i :: 0 <= i < |args| ==> pieces[i] == PieceOf(args[i]);
  }

  /** `build_call_args`: the call goes through exactly when every argument fits and no two overlap. */
  method BuildCallArgs(selector: Bytes4, args: seq<FieldArg>) returns (r: Option<Bytes>)
    ensures r.Some? <==> ArgsAllowed(args)
    ensures r.Some? ==>
              && |r.value| == 4 + Reach(FieldPieces(args))
              && r.value[..4] == selector
              && IsImage(r.value[4..], FieldPieces(args))
  {
    hide IsImage, AllApart, Reach, ArgsAllowed, FieldBytes;
    ArgsMeasured(args);
    ghost var pieces := FieldPieces(args);
    var memLen := MeasureArgs(args);
    if memLen.None? || memLen.value > MAX_USER_MEMORY {
      return None;
    }
    var spans := seq(|args|, i requires 0 <= i < |args| => Span(args[i].offset, Width(args[i].value)));
    assert spans == SpansOf(pieces);
    var apart := CheckPieces(spans, pieces);
    if !apart {
      return None;
    }
    var memory := new byte[memLen.value](_ => 0);
    NothingWritten(memory[..]);
    assert pieces[..0] == [] && pieces[0..0 + |args|] == pieces && pieces[..0 + |args|] == pieces;
    var ok := PutFields(memory, args, pieces, 0);
    if !ok {
      return None;
    }
    var callArgs := selector + memory[..];
    assert callArgs[..4] == selector && callArgs[4..] == memory[..];
    return Some(callArgs);
  }

  lemma ReachStep(pieces: seq<Piece>, i: nat)
    requires i < |pieces|
    ensures Reach(pieces[..i + 1]) == Max(Reach(pieces[..i]), EndOf(pieces[i]))
  {
    assert pieces[..i + 1][..i] == pieces[..i];
  }

  // ---- a signed order call ----

  /** Where the scheme, pointer and expiry words and the verify region go. */
  datatype Places = Places(scheme: u64, ptr: u64, expiry: u64, region: u64)

  /** The owner's key: its public half, the address derived from it, and signing with fresh randomness. */
  datatype OwnerKey = OwnerKey(publicKey: PublicKey, address: Bytes32, sign: Bytes -> Option<Signature>)

  datatype SignedOrderCall = SignedOrderCall(callArgs: Bytes, userMemory: Bytes, message: Bytes, signature: Signature,
                                             publicKey: PublicKey, signer: Bytes32, nonce: u64, expiry: u64)

  /** What the caller hands over; `contract` and `genesisOk` are the outcomes of two checks made elsewhere. */
  datatype Request = Request(chainId: u64, genesis: Bytes32, genesisOk: bool, contract: Option<Bytes32>,
                             selector: Bytes4, layoutHash: Bytes32, scheme: byte, places: Places,
                             fields: seq<FieldArg>, nonce: u64, expiry: u64)

  /** Offset zero asks for the default region. */
  function Resolved(places: Places): Places {
    places.(region := if places.region == 0 then DEFAULT_REGION_OFFSET else places.region)
  }

  function OrderOf(q: Request, key: OwnerKey): Order
    requires q.contract.Some?
  {
    Order(q.chainId, q.genesis, q.contract.value, q.selector, key.address, q.nonce, q.expiry, q.layoutHash)
  }

  function MessageOf(q: Request, key: OwnerKey): Bytes
    requires q.contract.Some?
  {
    Message(OrderOf(q, key), Values(q.fields))
  }

  /** Everything written into the memory: three words, the fields, and the region the machine verifies. */
  function CallPieces(q: Request, region: Bytes): (r: seq<Piece>)
    ensures |r| == |q.fields| + 4
  {
    var at := Resolved(q.places);
    [Piece(at.scheme, Be64(q.scheme)), Piece(at.ptr, Be64(at.region)), Piece(at.expiry, Be64(q.expiry))]
    + FieldPieces(q.fields) + [Piece(at.region, region)]
  }

  ghost predicate PlacesAllowed(places: Places) {
    && places.scheme >= CONTRACT_CONTEXT_BYTES && places.ptr >= CONTRACT_CONTEXT_BYTES
    && places.expiry >= CONTRACT_CONTEXT_BYTES && places.region >= CONTRACT_CONTEXT_BYTES
  }

  ghost predicate FieldsAllowed(fields: seq<FieldArg>) {
    forall i :: 0 <= i < |fields| ==> FieldAllowed(fields[i])
  }

  /** The order can be laid out: nothing reaches into the context, past the memory, or into another piece. */
  ghost predicate Buildable(q: Request, key: OwnerKey) {
    && q.contract.Some? && q.expiry != 0 && q.genesisOk
    && PlacesAllowed(Resolved(q.places))
    && FieldsAllowed(q.fields)
    && key.sign(MessageOf(q, key)).Some?
    && (var region := key.publicKey + key.sign(MessageOf(q, key)).value + MessageOf(q, key);
        && Reach(CallPieces(q, region)) <= MAX_USER_MEMORY
        && AllApart(CallPieces(q, region)))
  }

  method CheckFields(fields: seq<FieldArg>) returns (ok: bool)
    ensures ok <==> FieldsAllowed(fields)
  {
    for i := 0 to |fields|
      invariant forall k :: 0 <= k < i ==> FieldAllowed(fields[k])
    {
      if !FitsWindow(fields[i].value) {
        return false;
      }
      if fields[i].offset < CONTRACT_CONTEXT_BYTES {
        return false;
      }
    }
    return true;
  }

  /** The measuring loop of `build_typed_order_call`, from what the three words already reach. */
  method MeasureFields(fields: seq<FieldArg>, start: nat, ghost pieces: seq<Piece>, ghost at: nat) returns (r: Option<nat>)
    requires at + |fields| <= |pieces| && pieces[at..at + |fields|] == FieldPieces(fields)
    requires start == Reach(pieces[..at])
    ensures r.Some? <==> forall i :: 0 <= i < |fields| ==> EndOf(PieceOf(fields[i])) <= U64_MAX
    ensures r.Some? ==> r.value == Reach(pieces[..at + |fields|])
  {
    hide Reach, FieldBytes;
    var lastWordEnd := start;
    for i := 0 to |fields|
      invariant forall k :: 0 <= k < i ==> EndOf(PieceOf(fields[k])) <= U64_MAX
      invariant lastWordEnd == Reach(pieces[..at + i])
    {
      var end := fields[i].offset + Width(fields[i].value);
      if end > U64_MAX {
        return None;
      }
      assert pieces[at + i] == pieces[at..at + |fields|][i];
      ReachStep(pieces, at + i);
      lastWordEnd := Max(lastWordEnd, end);
    }
    return Some(lastWordEnd);
  }

  /** Public key, signature and message written one after the other fill the region as one piece. */
  lemma RegionInOne(mem: Bytes, start: nat, a: Bytes, b: Bytes, c: Bytes)
    requires start + |a| + |b| + |c| <= |mem|
    ensures var m1 := Overwritten(mem, Piece(start, a));
            var m2 := Overwritten(m1, Piece(start + |a|, b));
            Overwritten(m2, Piece(start + |a| + |b|, c)) == Overwritten(mem, Piece(start, a + b + c))
  {
    var m1 := Overwritten(mem, Piece(start, a));
    var m2 := Overwritten(m1, Piece(start + |a|, b));
    var m3 := Overwritten(m2, Piece(start + |a| + |b|, c));
    var all := Overwritten(mem, Piece(start, a + b + c));
    assert m2[..start + |a| + |b|] == mem[..start] + a + b;
    assert m2[start + |a| + |b| + |c|..] == mem[start + |a| + |b| + |c|..];
    assert m3 == mem[..start] + a + b + c + mem[start + |a| + |b| + |c|..];
    assert mem[..start] + a + b + c == mem[..start] + (a + b + c);
  }

  /** The writes of `build_typed_order_call`, none of which can fail once the layout was checked. */
  method WriteOrder(memory: array<byte>, q: Request, key: OwnerKey, signature: Signature, message: Bytes) returns (ok: bool)
    requires var region := key.publicKey + signature + message;
             && AllApart(CallPieces(q, region)) && Reach(CallPieces(q, region)) <= memory.Length
    requires forall i :: 0 <= i < memory.Length ==> memory[i] == 0
    modifies memory
    ensures ok && IsImage(memory[..], CallPieces(q, key.publicKey + signature + message))
  {
    var at := Resolved(q.places);
    ghost var region := key.publicKey + signature + message;
    ghost var pieces := CallPieces(q, region);
    PiecesInOrder(q, region);
    hide IsImage, AllApart, Overwritten, Reach, CallPieces;
    NothingWritten(memory[..]);
    assert pieces[..0] == [];
    PrefixImage(memory[..], pieces, 0);
    ok := PutBytes(memory, at.scheme, Be64(q.scheme));
    if !ok {
      return;
    }
    PrefixImage(memory[..], pieces, 1);
    ok := PutBytes(memory, at.ptr, Be64(at.region));
    if !ok {
      return;
    }
    PrefixImage(memory[..], pieces, 2);
    ok := PutBytes(memory, at.expiry, Be64(q.expiry));
    if !ok {
      return;
    }
    ok := PutFields(memory, q.fields, pieces, 3);
    if !ok {
      return;
    }
    var pkEnd := at.region + |key.publicKey|;
    var sigEnd := pkEnd + |signature|;
    PrefixImage(memory[..], pieces, 3 + |q.fields|);
    RegionInOne(memory[..], at.region, key.publicKey, signature, message);
    CopyFromSlice(memory, at.region, key.publicKey);
    CopyFromSlice(memory, pkEnd, signature);
    CopyFromSlice(memory, sigEnd, message);
    assert pieces[..4 + |q.fields|] == pieces;
  }

  lemma PiecesInOrder(q: Request, region: Bytes)
    ensures var pieces, at := CallPieces(q, region), Resolved(q.places);
            && pieces[0] == Piece(at.scheme, Be64(q.scheme))
            && pieces[1] == Piece(at.ptr, Be64(at.region))
            && pieces[2] == Piece(at.expiry, Be64(q.expiry))
            && pieces[3..3 + |q.fields|] == FieldPieces(q.fields)
            && pieces[3 + |q.fields|] == Piece(at.region, region)
  {
  }

  /**
   * `build_typed_order_call`: the order is built exactly when it can be laid out, and the memory then
   * holds every piece in its place and zeros everywhere else.
   */
  method BuildTypedOrderCall(q: Request, key: OwnerKey) returns (r: Option<SignedOrderCall>)
    ensures r.Some? <==> Buildable(q, key)
    ensures r.Some? ==>
              && r.value.message == MessageOf(q, key)
              && Some(r.value.signature) == key.sign(MessageOf(q, key))
              && r.value.publicKey == key.publicKey && r.value.signer == key.address
              && r.value.nonce == q.nonce && r.value.expiry == q.expiry
              && r.value.callArgs == q.selector + r.value.userMemory
              && |r.value.userMemory| == Reach(CallPieces(q, RegionOf(r.value)))
              && IsImage(r.value.userMemory, CallPieces(q, RegionOf(r.value)))
  {
    hide IsImage, AllApart, Reach, FieldsAllowed, Message;
    var at := Resolved(q.places);
    if q.contract.None? || q.expiry == 0 || !q.genesisOk {
      return None;
    }
    if at.scheme < CONTRACT_CONTEXT_BYTES || at.ptr < CONTRACT_CONTEXT_BYTES
       || at.expiry < CONTRACT_CONTEXT_BYTES || at.region < CONTRACT_CONTEXT_BYTES {
      return None;
    }
    var fieldsOk := CheckFields(q.fields);
    if !fieldsOk {
      return None;
    }
    var message := CanonicalOrderMessage(OrderOf(q, key), Values(q.fields));
    var signed := key.sign(message);
    if signed.None? {
      return None;
    }
    var signature := signed.value;
    ghost var region := key.publicKey + signature + message;
    var regionLen := |key.publicKey| + |signature| + |message|;
    ghost var pieces := CallPieces(q, region);
    var measured := MeasureCall(q, regionLen, region);
    if measured.None? || measured.value > MAX_USER_MEMORY {
      return None;
    }
    var spans := [Span(at.scheme, WORD), Span(at.ptr, WORD), Span(at.expiry, WORD)]
                 + seq(|q.fields|, i requires 0 <= i < |q.fields| => Span(q.fields[i].offset, Width(q.fields[i].value)))
                 + [Span(at.region, regionLen)];
    CallSpans(q, region, spans);
    var apart := CheckPieces(spans, pieces);
    if !apart {
      return None;
    }
    var userMemory := new byte[measured.value](_ => 0);
    var ok := WriteOrder(userMemory, q, key, signature, message);
    if !ok {
      return None;
    }
    return Some(SignedOrderCall(q.selector + userMemory[..], userMemory[..], message, signature, key.publicKey,
                                key.address, q.nonce, q.expiry));
  }

  function RegionOf(call: SignedOrderCall): Bytes {
    call.publicKey + call.signature + call.message
  }

  /** The memory the call needs: the context, the words, the fields and the region. */
  method MeasureCall(q: Request, regionLen: nat, ghost region: Bytes) returns (r: Option<nat>)
    requires regionLen == |region|
    ensures r.Some? ==> r.value == Reach(CallPieces(q, region))
    ensures r.None? ==> Reach(CallPieces(q, region)) > MAX_USER_MEMORY
    ensures r.Some? ==> forall i :: 0 <= i < |CallPieces(q, region)| ==> EndOf(CallPieces(q, region)[i]) <= U64_MAX
  {
    var at := Resolved(q.places);
    ghost var pieces := CallPieces(q, region);
    ghost var n := |q.fields|;
    PiecesInOrder(q, region);
    CallReach(q, region);
    EndsWithinReach(pieces);
    hide CallPieces, Reach;
    if at.region + regionLen > U64_MAX {
      assert EndOf(pieces[3 + n]) <= Reach(pieces);
      return None;
    }
    if at.scheme + WORD > U64_MAX || at.ptr + WORD > U64_MAX || at.expiry + WORD > U64_MAX {
      assert EndOf(pieces[0]) <= Reach(pieces) && EndOf(pieces[1]) <= Reach(pieces) && EndOf(pieces[2]) <= Reach(pieces);
      return None;
    }
    var lastWordEnd := Max(Max(Max(CONTRACT_CONTEXT_BYTES, at.scheme + WORD), at.ptr + WORD), at.expiry + WORD);
    var measured := MeasureFields(q.fields, lastWordEnd, pieces, 3);
    if measured.None? {
      ghost var i :| 0 <= i < |q.fields| && EndOf(PieceOf(q.fields[i])) > U64_MAX;
      assert pieces[3 + i] == pieces[3..3 + n][i] == PieceOf(q.fields[i]);
      return None;
    }
    forall i | 0 <= i < |pieces|
      ensures EndOf(pieces[i]) <= U64_MAX
    {
      if 3 <= i < 3 + n {
        assert pieces[i] == pieces[3..3 + n][i - 3] == PieceOf(q.fields[i - 3]);
      }
    }
    ReachStep(pieces, 3 + n);
    assert pieces[..4 + n] == pieces;
    return Some(Max(at.region + regionLen, measured.value));
  }

  lemma EndsWithinReach(pieces: seq<Piece>)
    ensures forall i :: 0 <= i < |pieces| ==> EndOf(pieces[i]) <= Reach(pieces)
  {
  }

  lemma CallReach(q: Request, region: Bytes)
    ensures var at := Resolved(q.places);
            Reach(CallPieces(q, region)[..3])
            == Max(Max(Max(CONTRACT_CONTEXT_BYTES, at.scheme + WORD), at.ptr + WORD), at.expiry + WORD)
  {
    var pieces := CallPieces(q, region);
    PiecesInOrder(q, region);
    hide CallPieces, Reach;
    ReachStep(pieces, 0);
    ReachStep(pieces, 1);
    ReachStep(pieces, 2);
    assert pieces[..0] == [];
    NoReach();
  }

  lemma CallSpans(q: Request, region: Bytes, spans: seq<Span>)
    requires region != []
    requires forall i :: 0 <= i < |CallPieces(q, region)| ==> EndOf(CallPieces(q, region)[i]) <= U64_MAX
    requires spans == [Span(Resolved(q.places).scheme, WORD), Span(Resolved(q.places).ptr, WORD),
                       Span(Resolved(q.places).expiry, WORD)]
                      + seq(|q.fields|, i requires 0 <= i < |q.fields| => Span(q.fields[i].offset, Width(q.fields[i].value)))
                      + [Span(Resolved(q.places).region, |region|)]
    ensures spans == SpansOf(CallPieces(q, region))
    ensures forall i :: 0 <= i < |CallPieces(q, region)| ==> |CallPieces(q, region)[i].bytes| > 0
  {
    var pieces := CallPieces(q, region);
    forall i | 0 <= i < |pieces|
      ensures |pieces[i].bytes| > 0 && spans[i] == Span(pieces[i].offset, |pieces[i].bytes|)
    {
      if 3 <= i < 3 + |q.fields| {
        assert pieces[i] == PieceOf(q.fields[i - 3]);
      }
    }
  }

  // ---- what the contract executes is what the owner signed ----

  ghost predicate At(mem: Bytes, offset: nat, bytes: Bytes) {
    offset + |bytes| <= |mem| && mem[offset..offset + |bytes|] == bytes
  }

  ghost predicate FieldsAsSigned(mem: Bytes, message: Bytes, fields: seq<FieldArg>) {
    forall k :: 0 <= k < |fields| ==> FieldAsSigned(mem, message, fields, k)
  }

  /** The field's place in memory holds the slice of the message that carries it. */
  ghost predicate FieldAsSigned(mem: Bytes, message: Bytes, fields: seq<FieldArg>, k: nat)
    requires k < |fields|
  {
    var start, w := FieldStart(Values(fields), k), Width(fields[k].value);
    start + w <= |message| && At(mem, fields[k].offset, message[start..start + w])
  }

  /** The message, place by place: tag, chain, genesis, contract, selector, signer, nonce, expiry, layout, values. */
  ghost predicate MessageSays(q: Request, key: OwnerKey, message: Bytes) {
    && q.contract.Some?
    && HeadSays(message, Order(q.chainId, q.genesis, q.contract.value, q.selector, key.address, q.nonce, q.expiry,
                               q.layoutHash))
    && ValuesSay(message, 168, Values(q.fields))
  }

  /** The call's words and fields, place by place; no region offset means 8192. */
  ghost predicate MemorySays(q: Request, call: SignedOrderCall) {
    var mem, region := call.userMemory, if q.places.region == 0 then 8192 else q.places.region;
    && WordAt(mem, q.places.scheme, q.scheme)
    && WordAt(mem, q.places.ptr, region)
    && WordAt(mem, q.places.expiry, q.expiry)
    && (forall k :: 0 <= k < |q.fields| ==> FieldAt(mem, q.fields[k]))
    && At(mem, region, call.publicKey + call.signature + call.message)
  }

  predicate WordAt(mem: Bytes, offset: nat, n: nat) {
    offset + 8 <= |mem| && Spells64(mem[offset..offset + 8], n)
  }

  predicate FieldAt(mem: Bytes, f: FieldArg) {
    f.offset + Width(f.value) <= |mem| && ValueSays(mem[f.offset..f.offset + Width(f.value)], f.value)
  }

  lemma MessageIsSaid(q: Request, key: OwnerKey)
    requires q.contract.Some?
    ensures MessageSays(q, key, MessageOf(q, key))
  {
    hide HeadSays, ValuesSay, Head, FieldsBytes;
    var o := OrderOf(q, key);
    HeadIsSaid(o, FieldsBytes(Values(q.fields)));
    ValuesAreSaid(Head(o), Values(q.fields));
  }

  lemma MemoryIsSaid(q: Request, call: SignedOrderCall)
    requires IsImage(call.userMemory, CallPieces(q, RegionOf(call)))
    ensures MemorySays(q, call)
  {
    hide CallPieces, IsImage, WordAt, FieldAt, At, Resolved;
    WordsAreSaid(q, call.userMemory, RegionOf(call));
    FieldsAreSaid(q, call.userMemory, RegionOf(call));
  }

  lemma FieldsAreSaid(q: Request, mem: Bytes, region: Bytes)
    requires IsImage(mem, CallPieces(q, region))
    ensures forall k :: 0 <= k < |q.fields| ==> FieldAt(mem, q.fields[k])
  {
    hide CallPieces, IsImage, FieldAt;
    forall k | 0 <= k < |q.fields|
      ensures FieldAt(mem, q.fields[k])
    {
      FieldIsSaid(q, mem, region, k);
    }
  }

  lemma WordsAreSaid(q: Request, mem: Bytes, region: Bytes)
    requires IsImage(mem, CallPieces(q, region))
    ensures var at := if q.places.region == 0 then 8192 else q.places.region;
            && WordAt(mem, q.places.scheme, q.scheme) && WordAt(mem, q.places.ptr, at)
            && WordAt(mem, q.places.expiry, q.expiry) && At(mem, at, region)
  {
    WordsLand(q, mem, region);
    Be64Spells(q.scheme);
    Be64Spells(Resolved(q.places).region);
    Be64Spells(q.expiry);
    hide CallPieces, Be64, Spells64, IsImage;
  }

  lemma FieldIsSaid(q: Request, mem: Bytes, region: Bytes, k: nat)
    requires IsImage(mem, CallPieces(q, region)) && k < |q.fields|
    ensures FieldAt(mem, q.fields[k])
  {
    var pieces := CallPieces(q, region);
    PiecesInOrder(q, region);
    hide CallPieces, FieldBytes, ValueSays;
    assert pieces[3 + k] == pieces[3..3 + |q.fields|][k] == PieceOf(q.fields[k]);
    assert ReadsBack(mem, pieces[3 + k]);
    ValueIsSaid(q.fields[k].value);
  }

  /**
   * Signed equals executed: in the memory of a call that was built, every field's bytes are the very
   * slice of the signed message that carries that field, the words and the verify region read back
   * as they were meant, and the host call context is left zero.
   */
  lemma SignedIsExecuted(q: Request, key: OwnerKey, call: SignedOrderCall)
    requires Buildable(q, key) && call.message == MessageOf(q, key)
    requires call.publicKey == key.publicKey && Some(call.signature) == key.sign(call.message)
    requires IsImage(call.userMemory, CallPieces(q, RegionOf(call)))
    ensures FieldsAsSigned(call.userMemory, call.message, q.fields)
    ensures var at := Resolved(q.places);
            && At(call.userMemory, at.scheme, Be64(q.scheme))
            && At(call.userMemory, at.ptr, Be64(at.region))
            && At(call.userMemory, at.expiry, Be64(q.expiry))
            && At(call.userMemory, at.region, call.publicKey)
            && At(call.userMemory, at.region + 1952, call.signature)
            && At(call.userMemory, at.region + 1952 + 3309, call.message)
    ensures MessageSays(q, key, call.message) && MemorySays(q, call)
    ensures forall i :: 0 <= i < CONTRACT_CONTEXT_BYTES && i < |call.userMemory| ==> call.userMemory[i] == 0
  {
    MessageIsSaid(q, key);
    MemoryIsSaid(q, call);
    CallReadsBack(q, key, call);
    hide MessageSays, MemorySays, FieldsAsSigned, At, IsImage, Buildable, CallPieces;
  }

  lemma CallReadsBack(q: Request, key: OwnerKey, call: SignedOrderCall)
    requires Buildable(q, key) && call.message == MessageOf(q, key)
    requires IsImage(call.userMemory, CallPieces(q, RegionOf(call)))
    ensures FieldsAsSigned(call.userMemory, call.message, q.fields)
    ensures var at := Resolved(q.places);
            && At(call.userMemory, at.scheme, Be64(q.scheme))
            && At(call.userMemory, at.ptr, Be64(at.region))
            && At(call.userMemory, at.expiry, Be64(q.expiry))
            && At(call.userMemory, at.region, call.publicKey)
            && At(call.userMemory, at.region + 1952, call.signature)
            && At(call.userMemory, at.region + 1952 + 3309, call.message)
    ensures forall i :: 0 <= i < CONTRACT_CONTEXT_BYTES && i < |call.userMemory| ==> call.userMemory[i] == 0
  {
    var mem, region := call.userMemory, RegionOf(call);
    FieldsLand(q, key, mem, region, call.message);
    WordsLand(q, mem, region);
    RegionParts(mem, Resolved(q.places).region, call.publicKey, call.signature, call.message);
    hide CallPieces, Be64, Reach, FieldsAsSigned, At, MessageOf, Resolved, AllApart, PiecesApart, ReadsBack;
    ContextIsZero(q, mem, region);
  }

  lemma ContextIsZero(q: Request, mem: Bytes, region: Bytes)
    requires PlacesAllowed(Resolved(q.places)) && FieldsAllowed(q.fields) && IsImage(mem, CallPieces(q, region))
    ensures forall i :: 0 <= i < CONTRACT_CONTEXT_BYTES && i < |mem| ==> mem[i] == 0
  {
    hide CallPieces, Resolved, ReadsBack;
    forall i | 0 <= i < CONTRACT_CONTEXT_BYTES && i < |mem|
      ensures mem[i] == 0
    {
      ContextUncovered(q, region, i);
    }
  }

  lemma FieldsLand(q: Request, key: OwnerKey, mem: Bytes, region: Bytes, message: Bytes)
    requires q.contract.Some? && message == MessageOf(q, key)
    requires IsImage(mem, CallPieces(q, region))
    ensures FieldsAsSigned(mem, message, q.fields)
  {
    var pieces, n := CallPieces(q, region), |q.fields|;
    PiecesInOrder(q, region);
    hide CallPieces, FieldBytes, Message;
    forall k | 0 <= k < n
      ensures FieldAsSigned(mem, message, q.fields, k)
    {
      assert pieces[3 + k] == pieces[3..3 + n][k] == PieceOf(q.fields[k]);
      assert ReadsBack(mem, pieces[3 + k]);
      MessageSlice(OrderOf(q, key), Values(q.fields), k);
    }
  }

  lemma WordsLand(q: Request, mem: Bytes, region: Bytes)
    requires IsImage(mem, CallPieces(q, region))
    ensures var at := Resolved(q.places);
            && At(mem, at.scheme, Be64(q.scheme))
            && At(mem, at.ptr, Be64(at.region))
            && At(mem, at.expiry, Be64(q.expiry))
            && At(mem, at.region, region)
  {
    var pieces, n := CallPieces(q, region), |q.fields|;
    PiecesInOrder(q, region);
    hide CallPieces, Be64;
    assert ReadsBack(mem, pieces[0]) && ReadsBack(mem, pieces[1]) && ReadsBack(mem, pieces[2]);
    assert ReadsBack(mem, pieces[3 + n]);
  }

  lemma RegionParts(mem: Bytes, start: nat, a: Bytes, b: Bytes, c: Bytes)
    requires At(mem, start, a + b + c)
    ensures At(mem, start, a) && At(mem, start + |a|, b) && At(mem, start + |a| + |b|, c)
  {
    var ab, end := |a| + |b|, |a| + |b| + |c|;
    SliceOfSlice(mem, start, start + end, 0, |a|);
    SliceOfSlice(mem, start, start + end, |a|, ab);
    SliceOfSlice(mem, start, start + end, ab, end);
    SliceOfFirst(a + b, c, 0, |a|);
    SliceOfFirst(a, b, 0, |a|);
    SliceOfFirst(a + b, c, |a|, ab);
    SliceOfSecond(a, b, 0, |b|);
    SliceOfSecond(a + b, c, 0, |c|);
  }

  lemma ContextUncovered(q: Request, region: Bytes, i: nat)
    requires PlacesAllowed(Resolved(q.places)) && FieldsAllowed(q.fields) && i < CONTRACT_CONTEXT_BYTES
    ensures !Covered(CallPieces(q, region), i)
  {
    var pieces := CallPieces(q, region);
    forall k | 0 <= k < |pieces|
      ensures !Covers(pieces[k], i)
    {
      if 3 <= k < 3 + |q.fields| {
        assert pieces[k] == PieceOf(q.fields[k - 3]) && FieldAllowed(q.fields[k - 3]);
      }
    }
  }

  // ---- exactly when a call can be built ----

  /** A stretch of memory. */
  datatype Part = Part(offset: nat, width: nat)

  /** Every part lies behind the 152 context bytes and inside the 65536 of the memory, and no two meet. */
  ghost predicate PartsFit(parts: seq<Part>) {
    && (forall i :: 0 <= i < |parts| ==> 152 <= parts[i].offset && parts[i].offset + parts[i].width <= 65536)
    && forall i, j :: 0 <= i < j < |parts| ==>
         parts[i].offset + parts[i].width <= parts[j].offset || parts[j].offset + parts[j].width <= parts[i].offset
  }

  function FieldParts(fields: seq<FieldArg>): (r: seq<Part>)
    ensures |r| == |fields|
  {
    seq(|fields|, i requires 0 <= i < |fields| => Part(fields[i].offset, Width(fields[i].value)))
  }

  /** Scheme, region pointer, expiry, the fields, and key, signature and message one after the other. */
  function CallParts(q: Request, messageLength: nat): seq<Part> {
    [Part(q.places.scheme, 8), Part(q.places.ptr, 8), Part(q.places.expiry, 8)] + FieldParts(q.fields)
    + [Part(if q.places.region == 0 then 8192 else q.places.region, 1952 + 3309 + messageLength)]
  }

  ghost predicate NamesFit(fields: seq<FieldArg>) {
    forall i :: 0 <= i < |fields| && fields[i].value.Name? ==> |fields[i].value.text| <= 32
  }

  ghost predicate SameShape(pieces: seq<Piece>, parts: seq<Part>) {
    |pieces| == |parts|
    && forall i :: 0 <= i < |pieces| ==> pieces[i].offset == parts[i].offset && |pieces[i].bytes| == parts[i].width
  }

  lemma {:induction false} ReachIsTheEnd(pieces: seq<Piece>, n: nat)
    requires n >= CONTRACT_CONTEXT_BYTES
    ensures Reach(pieces) <= n <==> forall i :: 0 <= i < |pieces| ==> EndOf(pieces[i]) <= n
  {
    if pieces != [] {
      var front, last := pieces[..|pieces| - 1], pieces[|pieces| - 1];
      ReachIsTheEnd(front, n);
      assert forall i :: 0 <= i < |front| ==> front[i] == pieces[i];
    }
  }

  lemma ShapesFit(pieces: seq<Piece>, parts: seq<Part>)
    requires SameShape(pieces, parts)
    ensures PartsFit(parts) <==>
              && (forall i :: 0 <= i < |pieces| ==> pieces[i].offset >= CONTRACT_CONTEXT_BYTES)
              && Reach(pieces) <= MAX_USER_MEMORY && AllApart(pieces)
  {
    ReachIsTheEnd(pieces, MAX_USER_MEMORY);
    hide Reach;
    if PartsFit(parts) {
      forall i | 0 <= i < |pieces|
        ensures pieces[i].offset >= CONTRACT_CONTEXT_BYTES && EndOf(pieces[i]) <= MAX_USER_MEMORY
      {
        assert 152 <= parts[i].offset;
      }
      forall i, j | 0 <= i < j < |pieces|
        ensures PiecesApart(pieces[i], pieces[j])
      {
        assert parts[i].offset + parts[i].width <= parts[j].offset || parts[j].offset + parts[j].width <= parts[i].offset;
      }
    }
    if Reach(pieces) <= MAX_USER_MEMORY && AllApart(pieces) {
      forall i, j | 0 <= i < j < |parts|
        ensures parts[i].offset + parts[i].width <= parts[j].offset || parts[j].offset + parts[j].width <= parts[i].offset
      {
        assert PiecesApart(pieces[i], pieces[j]);
      }
    }
  }

  /** Arguments are laid out if and only if every name and every part fits. */
  lemma ArgsAreExact(args: seq<FieldArg>)
    ensures ArgsAllowed(args) <==> NamesFit(args) && PartsFit(FieldParts(args))
  {
    var pieces, parts := FieldPieces(args), FieldParts(args);
    ShapesFit(pieces, parts);
    hide PartsFit, AllApart, Reach;
    assert forall i :: 0 <= i < |args| ==> pieces[i].offset == args[i].offset;
    if ArgsAllowed(args) {
      forall i | 0 <= i < |args|
        ensures FieldAllowed(args[i])
      {
        assert args[i] in args;
      }
    }
    if NamesFit(args) && PartsFit(parts) {
      forall f | f in args
        ensures FieldAllowed(f)
      {
        var i :| 0 <= i < |args| && args[i] == f;
        assert pieces[i].offset >= CONTRACT_CONTEXT_BYTES;
      }
    }
  }

  lemma CallShape(q: Request, region: Bytes, messageLength: nat)
    requires |region| == 1952 + 3309 + messageLength
    ensures SameShape(CallPieces(q, region), CallParts(q, messageLength))
    ensures (forall i :: 0 <= i < |CallPieces(q, region)| ==> CallPieces(q, region)[i].offset >= CONTRACT_CONTEXT_BYTES) <==>
              && PlacesAllowed(Resolved(q.places))
              && forall i :: 0 <= i < |q.fields| ==> q.fields[i].offset >= CONTRACT_CONTEXT_BYTES
  {
    var pieces, parts, n := CallPieces(q, region), CallParts(q, messageLength), |q.fields|;
    PiecesInOrder(q, region);
    hide CallPieces, Be64, FieldBytes;
    assert parts[3..3 + n] == FieldParts(q.fields);
    forall i | 0 <= i < |pieces|
      ensures pieces[i].offset == parts[i].offset && |pieces[i].bytes| == parts[i].width
    {
      if 3 <= i < 3 + n {
        assert pieces[i] == pieces[3..3 + n][i - 3] == PieceOf(q.fields[i - 3]);
        assert parts[i] == parts[3..3 + n][i - 3];
      }
    }
    forall k | 0 <= k < n
      ensures pieces[3 + k].offset == q.fields[k].offset
    {
      assert pieces[3 + k] == pieces[3..3 + n][k] == PieceOf(q.fields[k]);
    }
  }

  /**
   * A typed order is built if and only if there is a contract, an expiry and the right genesis, the key
   * signs the message, names fit their window and all parts fit the memory.
   */
  lemma OrderIsExact(q: Request, key: OwnerKey)
    ensures Buildable(q, key) <==>
              && q.contract.Some? && q.expiry != 0 && q.genesisOk
              && key.sign(MessageOf(q, key)).Some?
              && NamesFit(q.fields) && PartsFit(CallParts(q, |MessageOf(q, key)|))
  {
    hide PartsFit, CallParts, Reach, AllApart, Message, CallPieces;
    if q.contract.Some? && key.sign(MessageOf(q, key)).Some? {
      var message := MessageOf(q, key);
      var region := key.publicKey + key.sign(message).value + message;
      CallShape(q, region, |message|);
      ShapesFit(CallPieces(q, region), CallParts(q, |message|));
    }
  }
}
