/** The fields of a signed order, its message, and the preimage of its layout hash. */
module OrderMessage {
  import opened Machine

  const WORD: nat := 8
  const NAME_WINDOW: nat := 32

  type Bytes4 = b: Bytes | |b| == 4 witness seq(4, _ => 0)
  type Bytes16 = b: Bytes | |b| == 16 witness seq(16, _ => 0)
  type Bytes32 = b: Bytes | |b| == 32 witness seq(32, _ => 0)

  // ---- big-endian numbers ----

  function Pow256(k: nat): (p: nat)
    ensures p >= 1
  {
    if k == 0 then 1 else 256 * Pow256(k - 1)
  }

  /** The low `k` bytes of `n`, most significant first, as `to_be_bytes` of that width. */
  function BigEndian(n: nat, k: nat): (b: Bytes)
    ensures |b| == k
  {
    if k == 0 then [] else BigEndian(n / 256, k - 1) + [n % 256]
  }

  function FromBigEndian(b: Bytes): nat {
    if b == [] then 0 else 256 * FromBigEndian(b[..|b| - 1]) + b[|b| - 1]
  }

  lemma {:induction false} BigEndianRead(n: nat, k: nat)
    requires n < Pow256(k)
    ensures FromBigEndian(BigEndian(n, k)) == n
  {
    if k > 0 {
      BigEndianRead(n / 256, k - 1);
      assert BigEndian(n, k)[..k - 1] == BigEndian(n / 256, k - 1);
    }
  }

  lemma WordsFit()
    ensures Pow256(8) == U64_MAX + 1 && Pow256(4) == 0x1_0000_0000
  {
    assert Pow256(4) == 0x1_0000_0000;
    assert Pow256(8) == 256 * (256 * (256 * (256 * Pow256(4))));
  }

  function Be64(n: u64): (b: Bytes)
    ensures |b| == 8
  {
    BigEndian(n, 8)
  }

  lemma Be64Determines(a: u64, b: u64)
    requires Be64(a) == Be64(b)
    ensures a == b
  {
    WordsFit();
    BigEndianRead(a, 8);
    BigEndianRead(b, 8);
  }

  // ---- what a number's bytes are, place by place ----

  /** Eight bytes are this number, most significant first. */
  predicate Spells64(b: Bytes, n: nat) {
    && |b| == 8
    && n == b[0] as int * 0x100_0000_0000_0000 + b[1] as int * 0x1_0000_0000_0000 + b[2] as int * 0x100_0000_0000
            + b[3] as int * 0x1_0000_0000 + b[4] as int * 0x100_0000 + b[5] as int * 0x1_0000 + b[6] as int * 0x100
            + b[7] as int
  }

  predicate Spells32(b: Bytes, n: nat) {
    |b| == 4 && n == b[0] as int * 0x100_0000 + b[1] as int * 0x1_0000 + b[2] as int * 0x100 + b[3] as int
  }

  lemma FromPrefix(b: Bytes, k: nat)
    requires k < |b|
    ensures FromBigEndian(b[..k + 1]) == 256 * FromBigEndian(b[..k]) + b[k]
  {
    assert b[..k + 1][..k] == b[..k];
  }

  lemma Be64Spells(n: u64)
    ensures Spells64(Be64(n), n)
  {
    WordsFit();
    BigEndianRead(n, 8);
    var b := Be64(n);
    hide BigEndian, FromBigEndian, Pow256, Be64;
    NoBytes(b);
    FromPrefix(b, 0);
    FromPrefix(b, 1);
    FromPrefix(b, 2);
    FromPrefix(b, 3);
    FromPrefix(b, 4);
    FromPrefix(b, 5);
    FromPrefix(b, 6);
    FromPrefix(b, 7);
    assert b[..8] == b;
  }

  lemma Be32Spells(n: nat)
    requires n < 0x1_0000_0000
    ensures Spells32(BigEndian(n, 4), n)
  {
    WordsFit();
    BigEndianRead(n, 4);
    var b := BigEndian(n, 4);
    hide BigEndian, FromBigEndian, Pow256;
    NoBytes(b);
    FromPrefix(b, 0);
    FromPrefix(b, 1);
    FromPrefix(b, 2);
    FromPrefix(b, 3);
    assert b[..4] == b;
  }

  lemma NoBytes(b: Bytes)
    ensures FromBigEndian(b[..0]) == 0
  {
  }

  // ---- field values ----

  datatype FieldValue =
    | Word(w: u64)
    | Wide(b: Bytes16)
    | Address(a: Bytes32)
    | Name(text: Bytes)

  const LOW_WORD: nat := 0x1_0000_0000_0000_0000

  /** `FieldValue::wide`: the low word first, each word most significant byte first. */
  function WideOf(value: u128): FieldValue {
    Wide(Be64(value % LOW_WORD) + Be64(value / LOW_WORD))
  }

  function Zeros(n: nat): (b: Bytes)
    ensures |b| == n
  {
    seq(n, _ => 0)
  }

  /** A name's window: its first 32 bytes, padded with zeros. */
  function Window(text: Bytes): (b: Bytes)
    ensures |b| == NAME_WINDOW
  {
    if |text| <= NAME_WINDOW then text + Zeros(NAME_WINDOW - |text|) else text[..NAME_WINDOW]
  }

  function FieldBytes(v: FieldValue): (b: Bytes)
    ensures |b| == Width(v)
  {
    match v
    case Word(w) => Be64(w)
    case Wide(b) => b
    case Address(a) => a
    case Name(text) => Window(text) + BigEndian(|text|, 8)
  }

  function Width(v: FieldValue): nat {
    match v
    case Word(_) => WORD
    case Wide(_) => 16
    case Address(_) => 32
    case Name(_) => NAME_WINDOW + WORD
  }

  /** `ensure_fits` */
  predicate FitsWindow(v: FieldValue) {
    v.Name? ==> |v.text| <= NAME_WINDOW
  }

  predicate SameKind(a: FieldValue, b: FieldValue) {
    a.Word? == b.Word? && a.Wide? == b.Wide? && a.Address? == b.Address?
  }

  lemma WideDetermines(a: u128, b: u128)
    requires WideOf(a) == WideOf(b)
    ensures a == b
  {
    SplitAt(Be64(a % LOW_WORD), Be64(a / LOW_WORD), Be64(b % LOW_WORD), Be64(b / LOW_WORD));
    Be64Determines(a % LOW_WORD, b % LOW_WORD);
    Be64Determines(a / LOW_WORD, b / LOW_WORD);
  }

  lemma SplitAt(a: Bytes, b: Bytes, c: Bytes, d: Bytes)
    requires a + b == c + d && |a| == |c|
    ensures a == c && b == d
  {
    assert a == (a + b)[..|a|] && c == (c + d)[..|c|];
    assert b == (a + b)[|a|..] && d == (c + d)[|c|..];
  }

  /** A value that fits its window is determined by its bytes and its kind. */
  lemma FieldDetermined(a: FieldValue, b: FieldValue)
    requires SameKind(a, b) && FitsWindow(a) && FitsWindow(b) && FieldBytes(a) == FieldBytes(b)
    ensures a == b
  {
    if a.Word? {
      Be64Determines(a.w, b.w);
    } else if a.Name? {
      SplitAt(Window(a.text), BigEndian(|a.text|, 8), Window(b.text), BigEndian(|b.text|, 8));
      Be64Determines(|a.text|, |b.text|);
      SplitAt(a.text, Zeros(NAME_WINDOW - |a.text|), b.text, Zeros(NAME_WINDOW - |b.text|));
    }
  }

  // ---- the order message ----

  const SIGNED_MSG_TAG: Bytes := [0x51, 0x54, 0x56, 0x53, 0x47, 0x4E, 0x30, 0x34]
  const MSG_FIELDS_OFF: nat := 168

  datatype Order = Order(chainId: u64, genesis: Bytes32, contract: Bytes32, selector: Bytes4, signer: Bytes32,
                         nonce: u64, expiry: u64, layoutHash: Bytes32)

  function FieldsBytes(fields: seq<FieldValue>): Bytes {
    if fields == [] then []
    else FieldsBytes(fields[..|fields| - 1]) + FieldBytes(fields[|fields| - 1])
  }

  /** The four selector bytes as one zero-extended word. */
  function SelectorWord(selector: Bytes4): (b: Bytes)
    ensures |b| == 8
  {
    Zeros(4) + selector
  }

  function Head(o: Order): (b: Bytes)
    ensures |b| == MSG_FIELDS_OFF
  {
    SIGNED_MSG_TAG + Be64(o.chainId) + o.genesis + o.contract + SelectorWord(o.selector) + o.signer
    + Be64(o.nonce) + Be64(o.expiry) + o.layoutHash
  }

  function Message(o: Order, fields: seq<FieldValue>): Bytes {
    Head(o) + FieldsBytes(fields)
  }

  /** Widening a number puts zeros in front of its bytes. */
  lemma {:induction false} Widened(b: Bytes, k: nat)
    ensures BigEndian(FromBigEndian(b), k + |b|) == Zeros(k) + b
    ensures FromBigEndian(b) < Pow256(|b|)
  {
    if b == [] {
      ZeroBytes(k);
    } else {
      var front, last := b[..|b| - 1], b[|b| - 1];
      Widened(front, k);
      assert b == front + [last];
      assert FromBigEndian(b) / 256 == FromBigEndian(front) && FromBigEndian(b) % 256 == last;
    }
  }

  lemma SelectorIsItsWord(selector: Bytes4)
    ensures FromBigEndian(selector) <= U64_MAX
    ensures SelectorWord(selector) == Be64(FromBigEndian(selector))
  {
    WordsFit();
    Widened(selector, 4);
  }

  lemma {:induction false} ZeroBytes(k: nat)
    ensures BigEndian(0, k) == Zeros(k)
  {
    if k > 0 {
      ZeroBytes(k - 1);
    }
  }

  // ---- what the message says, place by place ----

  /** Where the parts of the head lie in the message. */
  predicate HeadSays(msg: Bytes, o: Order) {
    && |msg| >= 168
    && msg[0..8] == [0x51, 0x54, 0x56, 0x53, 0x47, 0x4E, 0x30, 0x34]
    && Spells64(msg[8..16], o.chainId)
    && msg[16..48] == o.genesis
    && msg[48..80] == o.contract
    && msg[80..84] == [0, 0, 0, 0] && msg[84..88] == o.selector
    && msg[88..120] == o.signer
    && Spells64(msg[120..128], o.nonce)
    && Spells64(msg[128..136], o.expiry)
    && msg[136..168] == o.layoutHash
  }

  /** The bytes of one value: words most significant byte first, names zero-padded before their length. */
  predicate ValueSays(b: Bytes, v: FieldValue) {
    match v
    case Word(w) => Spells64(b, w)
    case Wide(x) => b == x
    case Address(a) => b == a
    case Name(text) =>
      && |b| == 40
      && (forall i :: 0 <= i < 32 ==> b[i] == if i < |text| then text[i] else 0)
      && (|text| <= U64_MAX ==> Spells64(b[32..40], |text|))
  }

  /** Every value, one after the other from byte 168 on, and nothing else. */
  predicate ValuesSay(msg: Bytes, at: nat, fields: seq<FieldValue>)
    decreases |fields|
  {
    if fields == [] then |msg| == at
    else
      var w := match fields[0] case Word(_) => 8 case Wide(_) => 16 case Address(_) => 32 case Name(_) => 40;
      at + w <= |msg| && ValueSays(msg[at..at + w], fields[0]) && ValuesSay(msg, at + w, fields[1..])
  }

  lemma ValueIsSaid(v: FieldValue)
    ensures ValueSays(FieldBytes(v), v)
  {
    hide BigEndian, Spells64;
    match v {
      case Word(w) => Be64Spells(w);
      case Name(text) =>
        var b := FieldBytes(v);
        assert forall i :: 0 <= i < 32 ==> b[i] == Window(text)[i];
        if |text| <= U64_MAX {
          Be64Spells(|text|);
          assert b[32..40] == Be64(|text|);
        }
      case _ =>
    }
  }

  lemma HeadIsSaid(o: Order, rest: Bytes)
    ensures HeadSays(Head(o) + rest, o)
  {
    Be64Spells(o.chainId);
    Be64Spells(o.nonce);
    Be64Spells(o.expiry);
    HeadParts(o, rest);
    hide Be64, Spells64, Head;
  }

  lemma HeadParts(o: Order, rest: Bytes)
    ensures var msg := Head(o) + rest;
            && msg[0..8] == SIGNED_MSG_TAG && msg[8..16] == Be64(o.chainId)
            && msg[16..48] == o.genesis && msg[48..80] == o.contract
            && msg[80..84] == [0, 0, 0, 0] && msg[84..88] == o.selector
            && msg[88..120] == o.signer && msg[120..128] == Be64(o.nonce)
            && msg[128..136] == Be64(o.expiry) && msg[136..168] == o.layoutHash
  {
    hide Be64;
    var msg := Head(o) + rest;
    assert msg[8..16] == Be64(o.chainId);
    assert msg[120..128] == Be64(o.nonce);
    assert msg[128..136] == Be64(o.expiry);
    assert msg[80..88] == SelectorWord(o.selector);
    assert msg[80..84] == msg[80..88][..4] && msg[84..88] == msg[80..88][4..];
  }

  lemma {:induction false} FieldsBytesFront(fields: seq<FieldValue>)
    requires fields != []
    ensures FieldsBytes(fields) == FieldBytes(fields[0]) + FieldsBytes(fields[1..])
    decreases |fields|
  {
    hide FieldBytes;
    var n := |fields| - 1;
    if n == 0 {
      assert fields[..0] == [] && fields[1..] == [];
    } else {
      var front, rest := fields[..n], fields[1..];
      FieldsBytesFront(front);
      assert front[1..] == rest[..n - 1] && rest[n - 1] == fields[n] && |rest| == n;
      hide FieldsBytes;
      FieldsBytesLast(fields);
      FieldsBytesLast(rest);
      var a, b, c := FieldBytes(fields[0]), FieldsBytes(front[1..]), FieldBytes(fields[n]);
      assert a + b + c == a + (b + c);
    }
  }

  lemma FieldsBytesLast(fields: seq<FieldValue>)
    requires fields != []
    ensures FieldsBytes(fields) == FieldsBytes(fields[..|fields| - 1]) + FieldBytes(fields[|fields| - 1])
  {
  }

  lemma {:induction false} ValuesAreSaid(before: Bytes, fields: seq<FieldValue>)
    ensures ValuesSay(before + FieldsBytes(fields), |before|, fields)
    decreases |fields|
  {
    if fields == [] {
      assert before + [] == before;
    } else {
      ValuesAreSaid(before + FieldBytes(fields[0]), fields[1..]);
      hide FieldsBytes, FieldBytes, ValueSays;
      ValueIsSaid(fields[0]);
      FieldsBytesFront(fields);
      OneInFront(before, FieldBytes(fields[0]), FieldsBytes(fields[1..]));
    }
  }

  lemma OneInFront(before: Bytes, first: Bytes, rest: Bytes)
    ensures before + (first + rest) == (before + first) + rest
    ensures (before + (first + rest))[|before|..|before| + |first|] == first
  {
  }

  /** The low word comes first. */
  lemma WideSpells(value: u128)
    ensures Spells64(WideOf(value).b[..8], value % 0x1_0000_0000_0000_0000)
    ensures Spells64(WideOf(value).b[8..], value / 0x1_0000_0000_0000_0000)
  {
    Be64Spells(value % LOW_WORD);
    Be64Spells(value / LOW_WORD);
  }

  /** `canonical_order_message_typed`: append the head field by field, then every value's bytes. */
  method CanonicalOrderMessage(o: Order, fields: seq<FieldValue>) returns (msg: Bytes)
    ensures msg == Message(o, fields)
    ensures HeadSays(msg, o) && ValuesSay(msg, 168, fields)
  {
    HeadIsSaid(o, FieldsBytes(fields));
    ValuesAreSaid(Head(o), fields);
    hide BigEndian, FromBigEndian, Zeros, HeadSays, ValuesSay, FieldBytes;
    SelectorIsItsWord(o.selector);
    msg := SIGNED_MSG_TAG;
    msg := msg + Be64(o.chainId);
    msg := msg + o.genesis;
    msg := msg + o.contract;
    msg := msg + Be64(FromBigEndian(o.selector));
    msg := msg + o.signer;
    msg := msg + Be64(o.nonce);
    msg := msg + Be64(o.expiry);
    msg := msg + o.layoutHash;
    assert msg == Head(o) + FieldsBytes(fields[..0]);
    for i := 0 to |fields|
      invariant msg == Head(o) + FieldsBytes(fields[..i])
    {
      FieldsBytesStep(fields, i);
      assert Head(o) + FieldsBytes(fields[..i]) + FieldBytes(fields[i]) == Head(o) + FieldsBytes(fields[..i + 1]);
      msg := msg + FieldBytes(fields[i]);
    }
    assert fields[..|fields|] == fields;
  }

  lemma FieldsBytesStep(fields: seq<FieldValue>, i: nat)
    requires i < |fields|
    ensures FieldsBytes(fields[..i + 1]) == FieldsBytes(fields[..i]) + FieldBytes(fields[i])
  {
    assert fields[..i + 1][..i] == fields[..i];
  }

  lemma {:induction false} FieldsDetermined(a: seq<FieldValue>, b: seq<FieldValue>)
    requires |a| == |b| && forall i :: 0 <= i < |a| ==> SameKind(a[i], b[i]) && FitsWindow(a[i]) && FitsWindow(b[i])
    requires FieldsBytes(a) == FieldsBytes(b)
    ensures a == b
  {
    hide FieldBytes, FieldsBytes;
    if a != [] {
      var n := |a| - 1;
      FieldsBytesLast(a);
      FieldsBytesLast(b);
      SameKindsSameWidth(a[..n], b[..n]);
      SplitAt(FieldsBytes(a[..n]), FieldBytes(a[n]), FieldsBytes(b[..n]), FieldBytes(b[n]));
      FieldsDetermined(a[..n], b[..n]);
      FieldDetermined(a[n], b[n]);
      assert a == a[..n] + [a[n]] && b == b[..n] + [b[n]];
    }
  }

  lemma {:induction false} SameKindsSameWidth(a: seq<FieldValue>, b: seq<FieldValue>)
    requires |a| == |b| && forall i :: 0 <= i < |a| ==> SameKind(a[i], b[i])
    ensures |FieldsBytes(a)| == |FieldsBytes(b)|
  {
    if a != [] {
      SameKindsSameWidth(a[..|a| - 1], b[..|b| - 1]);
    }
  }

  lemma HeadDetermines(a: Order, b: Order)
    requires Head(a) == Head(b)
    ensures a == b
  {
    var tag := SIGNED_MSG_TAG;
    var a1, b1 := tag + Be64(a.chainId), tag + Be64(b.chainId);
    var a2, b2 := a1 + a.genesis, b1 + b.genesis;
    var a3, b3 := a2 + a.contract, b2 + b.contract;
    var a4, b4 := a3 + SelectorWord(a.selector), b3 + SelectorWord(b.selector);
    var a5, b5 := a4 + a.signer, b4 + b.signer;
    var a6, b6 := a5 + Be64(a.nonce), b5 + Be64(b.nonce);
    var a7, b7 := a6 + Be64(a.expiry), b6 + Be64(b.expiry);
    SplitAt(a7, a.layoutHash, b7, b.layoutHash);
    SplitAt(a6, Be64(a.expiry), b6, Be64(b.expiry));
    SplitAt(a5, Be64(a.nonce), b5, Be64(b.nonce));
    SplitAt(a4, a.signer, b4, b.signer);
    SplitAt(a3, SelectorWord(a.selector), b3, SelectorWord(b.selector));
    SplitAt(a2, a.contract, b2, b.contract);
    SplitAt(a1, a.genesis, b1, b.genesis);
    SplitAt(tag, Be64(a.chainId), tag, Be64(b.chainId));
    SplitAt(Zeros(4), a.selector, Zeros(4), b.selector);
    Be64Determines(a.chainId, b.chainId);
    Be64Determines(a.nonce, b.nonce);
    Be64Determines(a.expiry, b.expiry);
  }

  /**
   * The signed message says it all: for one list of field kinds it determines chain, genesis,
   * contract, selector, signer, nonce, expiry, layout and the value of every field.
   */
  lemma MessageDeterminesOrder(o1: Order, fields1: seq<FieldValue>, o2: Order, fields2: seq<FieldValue>)
    requires |fields1| == |fields2|
    requires forall i :: 0 <= i < |fields1| ==>
               SameKind(fields1[i], fields2[i]) && FitsWindow(fields1[i]) && FitsWindow(fields2[i])
    requires Message(o1, fields1) == Message(o2, fields2)
    ensures o1 == o2 && fields1 == fields2
  {
    SplitAt(Head(o1), FieldsBytes(fields1), Head(o2), FieldsBytes(fields2));
    HeadDetermines(o1, o2);
    FieldsDetermined(fields1, fields2);
  }

  function FieldStart(values: seq<FieldValue>, k: nat): nat
    requires k <= |values|
  {
    MSG_FIELDS_OFF + |FieldsBytes(values[..k])|
  }

  lemma {:induction false} FieldsSlice(values: seq<FieldValue>, k: nat)
    requires k < |values|
    ensures var start, all := |FieldsBytes(values[..k])|, FieldsBytes(values);
            start + Width(values[k]) <= |all| && all[start..start + Width(values[k])] == FieldBytes(values[k])
  {
    hide FieldBytes, Width;
    var n, w := |values| - 1, Width(values[k]);
    var front, last, start := FieldsBytes(values[..n]), FieldBytes(values[n]), |FieldsBytes(values[..k])|;
    assert FieldsBytes(values) == front + last;
    if k < n {
      FieldsSlice(values[..n], k);
      assert values[..n][..k] == values[..k];
      SliceOfFirst(front, last, start, start + w);
    } else {
      SliceOfSecond(front, last, 0, w);
    }
  }

  lemma MessageSlice(o: Order, values: seq<FieldValue>, k: nat)
    requires k < |values|
    ensures var start, w := FieldStart(values, k), Width(values[k]);
            start + w <= |Message(o, values)| && Message(o, values)[start..start + w] == FieldBytes(values[k])
  {
    FieldsSlice(values, k);
    hide FieldsBytes, FieldBytes, Head;
    var start, w := |FieldsBytes(values[..k])|, Width(values[k]);
    SliceOfSecond(Head(o), FieldsBytes(values), start, start + w);
  }

  // ---- the layout preimage ----

  const ORDER_LAYOUT_TAG: Bytes := [0x51, 0x54, 0x56, 0x4C, 0x41, 0x59, 0x54, 0x31]

  datatype LayoutField = LayoutField(name: Bytes, ty: Bytes, width: u64)

  function Counted(b: Bytes): Bytes {
    BigEndian(|b|, 4) + b
  }

  function LayoutFieldBytes(f: LayoutField): Bytes {
    Counted(f.name) + (Counted(f.ty) + Be64(f.width))
  }

  function LayoutFieldsBytes(fields: seq<LayoutField>): Bytes {
    if fields == [] then [] else LayoutFieldBytes(fields[0]) + LayoutFieldsBytes(fields[1..])
  }

  /** What `order_layout_hash` hashes; lengths are cut to 32 bits. */
  function LayoutPreimage(selector: Bytes4, fields: seq<LayoutField>): Bytes {
    ORDER_LAYOUT_TAG + (selector + (BigEndian(|fields|, 4) + LayoutFieldsBytes(fields)))
  }

  /** The appends of `order_layout_hash`, up to the hash itself. */
  method OrderLayoutPreimage(selector: Bytes4, fields: seq<LayoutField>) returns (pre: Bytes)
    ensures pre == LayoutPreimage(selector, fields)
  {
    hide BigEndian;
    pre := ORDER_LAYOUT_TAG;
    pre := pre + selector;
    pre := pre + BigEndian(|fields|, 4);
    assert fields[0..] == fields;
    assert pre + LayoutFieldsBytes(fields) == LayoutPreimage(selector, fields);
    for i := 0 to |fields|
      invariant pre + LayoutFieldsBytes(fields[i..]) == LayoutPreimage(selector, fields)
    {
      var f := fields[i];
      assert fields[i..][1..] == fields[i + 1..];
      AppendField(pre, f, LayoutFieldsBytes(fields[i + 1..]));
      pre := pre + BigEndian(|f.name|, 4);
      pre := pre + f.name;
      pre := pre + BigEndian(|f.ty|, 4);
      pre := pre + f.ty;
      pre := pre + Be64(f.width);
    }
    assert pre + [] == pre;
  }

  lemma AppendField(pre: Bytes, f: LayoutField, rest: Bytes)
    ensures pre + BigEndian(|f.name|, 4) + f.name + BigEndian(|f.ty|, 4) + f.ty + Be64(f.width) + rest
            == pre + (LayoutFieldBytes(f) + rest)
  {
    hide BigEndian, Be64;
  }

  predicate ShortEnough(f: LayoutField) {
    |f.name| < 0x1_0000_0000 && |f.ty| < 0x1_0000_0000
  }

  lemma CountDetermines(a: nat, b: nat)
    requires a < 0x1_0000_0000 && b < 0x1_0000_0000 && BigEndian(a, 4) == BigEndian(b, 4)
    ensures a == b
  {
    WordsFit();
    BigEndianRead(a, 4);
    BigEndianRead(b, 4);
  }

  /** A counted string ends where its count says, whatever follows. */
  lemma CountedDetermines(a: Bytes, x: Bytes, b: Bytes, y: Bytes)
    requires |a| < 0x1_0000_0000 && |b| < 0x1_0000_0000 && Counted(a) + x == Counted(b) + y
    ensures a == b && x == y
  {
    assert Counted(a) + x == BigEndian(|a|, 4) + (a + x);
    assert Counted(b) + y == BigEndian(|b|, 4) + (b + y);
    SplitAt(BigEndian(|a|, 4), a + x, BigEndian(|b|, 4), b + y);
    CountDetermines(|a|, |b|);
    SplitAt(a, x, b, y);
  }

  lemma LayoutFieldDetermines(f: LayoutField, x: Bytes, g: LayoutField, y: Bytes)
    requires ShortEnough(f) && ShortEnough(g) && LayoutFieldBytes(f) + x == LayoutFieldBytes(g) + y
    ensures f == g && x == y
  {
    hide Counted, Be64;
    var fx, gy := Be64(f.width) + x, Be64(g.width) + y;
    assert LayoutFieldBytes(f) + x == Counted(f.name) + (Counted(f.ty) + fx);
    assert LayoutFieldBytes(g) + y == Counted(g.name) + (Counted(g.ty) + gy);
    CountedDetermines(f.name, Counted(f.ty) + fx, g.name, Counted(g.ty) + gy);
    CountedDetermines(f.ty, fx, g.ty, gy);
    SplitAt(Be64(f.width), x, Be64(g.width), y);
    Be64Determines(f.width, g.width);
  }

  lemma {:induction false} LayoutFieldsDetermine(a: seq<LayoutField>, b: seq<LayoutField>)
    requires |a| == |b| && forall i :: 0 <= i < |a| ==> ShortEnough(a[i]) && ShortEnough(b[i])
    requires LayoutFieldsBytes(a) == LayoutFieldsBytes(b)
    ensures a == b
  {
    if a != [] {
      LayoutFieldDetermines(a[0], LayoutFieldsBytes(a[1..]), b[0], LayoutFieldsBytes(b[1..]));
      LayoutFieldsDetermine(a[1..], b[1..]);
      assert a == [a[0]] + a[1..] && b == [b[0]] + b[1..];
    }
  }

  /** The layout preimage determines the selector and every field's name, type and width. */
  lemma PreimageDeterminesLayout(s1: Bytes4, fields1: seq<LayoutField>, s2: Bytes4, fields2: seq<LayoutField>)
    requires |fields1| < 0x1_0000_0000 && |fields2| < 0x1_0000_0000
    requires forall i :: 0 <= i < |fields1| ==> ShortEnough(fields1[i])
    requires forall i :: 0 <= i < |fields2| ==> ShortEnough(fields2[i])
    requires LayoutPreimage(s1, fields1) == LayoutPreimage(s2, fields2)
    ensures s1 == s2 && fields1 == fields2
  {
    hide LayoutFieldsBytes, BigEndian;
    var n1, n2 := BigEndian(|fields1|, 4), BigEndian(|fields2|, 4);
    var r1, r2 := LayoutFieldsBytes(fields1), LayoutFieldsBytes(fields2);
    SplitAt(ORDER_LAYOUT_TAG, s1 + (n1 + r1), ORDER_LAYOUT_TAG, s2 + (n2 + r2));
    SplitAt(s1, n1 + r1, s2, n2 + r2);
    SplitAt(n1, r1, n2, r2);
    CountDetermines(|fields1|, |fields2|);
    LayoutFieldsDetermine(fields1, fields2);
  }

  /** Where the parts of the preimage lie. */
  predicate LayoutSays(pre: Bytes, selector: Bytes4, fields: seq<LayoutField>) {
    && |pre| >= 16
    && pre[0..8] == [0x51, 0x54, 0x56, 0x4C, 0x41, 0x59, 0x54, 0x31]
    && pre[8..12] == selector
    && Spells32(pre[12..16], |fields|)
    && LayoutFieldsSay(pre[16..], fields)
  }

  /** Name and type, each behind its length, and then the width, field by field, and nothing else. */
  predicate LayoutFieldsSay(b: Bytes, fields: seq<LayoutField>) {
    if fields == [] then b == []
    else
      var f := fields[0];
      var ty := 4 + |f.name|;
      var width := ty + 4 + |f.ty|;
      && width + 8 <= |b|
      && Spells32(b[0..4], |f.name|) && b[4..ty] == f.name
      && Spells32(b[ty..ty + 4], |f.ty|) && b[ty + 4..width] == f.ty
      && Spells64(b[width..width + 8], f.width)
      && LayoutFieldsSay(b[width + 8..], fields[1..])
  }

  lemma LayoutFieldIsSaid(f: LayoutField, rest: Bytes)
    requires ShortEnough(f)
    ensures var b, ty := LayoutFieldBytes(f) + rest, 4 + |f.name|;
            var width := ty + 4 + |f.ty|;
            && width + 8 <= |b|
            && Spells32(b[0..4], |f.name|) && b[4..ty] == f.name
            && Spells32(b[ty..ty + 4], |f.ty|) && b[ty + 4..width] == f.ty
            && Spells64(b[width..width + 8], f.width) && b[width + 8..] == rest
  {
    hide BigEndian, Be64, Spells32, Spells64, LayoutFieldBytes;
    Be32Spells(|f.name|);
    Be32Spells(|f.ty|);
    Be64Spells(f.width);
    LayoutFieldParts(f, rest);
  }

  lemma LayoutFieldParts(f: LayoutField, rest: Bytes)
    ensures var b, ty := LayoutFieldBytes(f) + rest, 4 + |f.name|;
            var width := ty + 4 + |f.ty|;
            && width + 8 <= |b|
            && b[0..4] == BigEndian(|f.name|, 4) && b[4..ty] == f.name
            && b[ty..ty + 4] == BigEndian(|f.ty|, 4) && b[ty + 4..width] == f.ty
            && b[width..width + 8] == Be64(f.width) && b[width + 8..] == rest
  {
    hide BigEndian, Be64;
    var b, ty := LayoutFieldBytes(f) + rest, 4 + |f.name|;
    var width := ty + 4 + |f.ty|;
    assert b[0..4] == BigEndian(|f.name|, 4);
    assert b[ty..ty + 4] == BigEndian(|f.ty|, 4);
    assert b[width..width + 8] == Be64(f.width);
  }

  lemma {:induction false} LayoutFieldsAreSaid(fields: seq<LayoutField>)
    requires forall i :: 0 <= i < |fields| ==> ShortEnough(fields[i])
    ensures LayoutFieldsSay(LayoutFieldsBytes(fields), fields)
  {
    if fields != [] {
      LayoutFieldIsSaid(fields[0], LayoutFieldsBytes(fields[1..]));
      hide LayoutFieldBytes, Spells32, Spells64;
      LayoutFieldsAreSaid(fields[1..]);
    }
  }

  /** The preimage, place by place. */
  lemma PreimageSays(selector: Bytes4, fields: seq<LayoutField>)
    requires |fields| < 0x1_0000_0000 && forall i :: 0 <= i < |fields| ==> ShortEnough(fields[i])
    ensures LayoutSays(LayoutPreimage(selector, fields), selector, fields)
  {
    Be32Spells(|fields|);
    LayoutFieldsAreSaid(fields);
    PreimageParts(selector, fields);
    hide BigEndian, Spells32, LayoutFieldsSay, LayoutFieldsBytes, LayoutPreimage;
  }

  lemma PreimageParts(selector: Bytes4, fields: seq<LayoutField>)
    ensures var pre := LayoutPreimage(selector, fields);
            && |pre| >= 16
            && pre[0..8] == [0x51, 0x54, 0x56, 0x4C, 0x41, 0x59, 0x54, 0x31] && pre[8..12] == selector
            && pre[12..16] == BigEndian(|fields|, 4) && pre[16..] == LayoutFieldsBytes(fields)
  {
    hide BigEndian, LayoutFieldsBytes;
    var count, rest := BigEndian(|fields|, 4), LayoutFieldsBytes(fields);
    var pre := LayoutPreimage(selector, fields);
    assert pre[0..8] == ORDER_LAYOUT_TAG && pre[8..] == selector + (count + rest);
    assert pre[8..][4..] == pre[12..] && pre[8..][4..] == count + rest;
    assert pre[12..][..4] == pre[12..16] && pre[12..][4..] == pre[16..];
  }
}
