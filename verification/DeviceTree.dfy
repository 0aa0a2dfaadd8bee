/** The flattened device tree of the Devicetree Specification (section 5.4), and its traversal. */
module DeviceTree {
  import opened Bytes

  const MAGIC: nat := 0xD00D_FEED
  const BEGIN_NODE: nat := 1
  const END_NODE: nat := 2
  const PROP: nat := 3
  const NOP: nat := 4
  const END: nat := 9

  // ---------------------------------------------------------------- byte order

  /** `big2little`: shifted and masked bytes, which share no bits. */
  function Swap32(d: nat): nat {
    d / 0x100_0000 % 0x100 + d / 0x1_0000 % 0x100 * 0x100 + d / 0x100 % 0x100 * 0x1_0000 + d % 0x100 * 0x100_0000
  }

  /** `big2little64`. */
  function Swap64(d: nat): nat {
    Swap32(d / WORD32 % WORD32) + Swap32(d % WORD32) * WORD32
  }

  /** The word with these bytes, least significant first. */
  function Word(a: Byte, b: Byte, c: Byte, d: Byte): nat {
    a + b * 0x100 + c * 0x1_0000 + d * 0x100_0000
  }

  /** The word that a little-endian machine loads from `i`. */
  function Load(m: seq<Byte>, i: nat): nat {
    Word(At(m, i), At(m, i + 1), At(m, i + 2), At(m, i + 3))
  }

  function ReadBig(m: seq<Byte>, i: nat): nat {
    Swap32(Load(m, i))
  }

  lemma {:induction false} LowByte(a: Byte, rest: nat)
    ensures (a + rest * 0x100) % 0x100 == a && (a + rest * 0x100) / 0x100 == rest
  {
  }

  lemma {:induction false} FourBytes(a: Byte, b: Byte, c: Byte, d: Byte)
    ensures Word(a, b, c, d) < WORD32 && Swap32(Word(a, b, c, d)) == Word(d, c, b, a)
  {
    var n := Word(a, b, c, d);
    LowByte(a, b + c * 0x100 + d * 0x1_0000);
    LowByte(b, c + d * 0x100);
    LowByte(c, d);
    ByteShifts(n);
    assert n / 0x100 == b + c * 0x100 + d * 0x1_0000;
    assert n / 0x1_0000 == c + d * 0x100;
    assert n / 0x100_0000 == d;
  }

  lemma {:induction false} WordOfBytes(n: nat)
    requires n < WORD32
    ensures n == Word(n % 0x100, n / 0x100 % 0x100, n / 0x1_0000 % 0x100, n / 0x100_0000 % 0x100)
  {
    var b, c, d := n / 0x100, n / 0x1_0000, n / 0x100_0000;
    ByteShifts(n);
    assert d < 0x100;
    assert n == n % 0x100 + b * 0x100;
    assert b == b % 0x100 + c * 0x100;
    assert c == c % 0x100 + d * 0x100;
    assert d % 0x100 == d;
  }

  /** Swapping the bytes of a word twice gives it back. */
  lemma {:induction false} Swap32Twice(d: nat)
    requires d < WORD32
    ensures Swap32(d) < WORD32 && Swap32(Swap32(d)) == d
  {
    var w, x, y, z := d % 0x100, d / 0x100 % 0x100, d / 0x1_0000 % 0x100, d / 0x100_0000 % 0x100;
    WordOfBytes(d);
    hide Swap32;
    FourBytes(w, x, y, z);
    FourBytes(z, y, x, w);
  }

  lemma {:induction false} HalvesOf(a: nat, b: nat)
    requires a < WORD32 && b < WORD32
    ensures (a + b * WORD32) % WORD32 == a && (a + b * WORD32) / WORD32 % WORD32 == b
  {
  }

  lemma {:induction false} Swap64Twice(d: nat)
    requires d < WORD32 * WORD32
    ensures Swap64(Swap64(d)) == d
  {
    hide Swap32;
    Swap32Twice(d / WORD32 % WORD32);
    Swap32Twice(d % WORD32);
    HalvesOf(Swap32(d / WORD32 % WORD32), Swap32(d % WORD32));
    assert d == d / WORD32 * WORD32 + d % WORD32 && d / WORD32 < WORD32;
  }

  /** The eight bytes come out in the opposite order. */
  lemma {:induction false} Swap64Bytes(a: Byte, b: Byte, c: Byte, d: Byte, e: Byte, f: Byte, g: Byte, h: Byte)
    ensures Swap64(Word(a, b, c, d) + Word(e, f, g, h) * WORD32) == Word(h, g, f, e) + Word(d, c, b, a) * WORD32
  {
    hide Swap32, Word;
    FourBytes(a, b, c, d);
    FourBytes(e, f, g, h);
    HalvesOf(Word(a, b, c, d), Word(e, f, g, h));
  }

  /** A big-endian word in memory is read as its value. */
  lemma {:induction false} ReadsBig(m: seq<Byte>, i: nat, n: nat)
    requires n < WORD32 && Holds(m, i, Big(n))
    ensures ReadBig(m, i) == n
  {
    HoldsAt(m, i, Big(n), 0);
    HoldsAt(m, i, Big(n), 1);
    HoldsAt(m, i, Big(n), 2);
    HoldsAt(m, i, Big(n), 3);
    hide Holds, At, Swap32;
    FourBytes(Big(n)[0], Big(n)[1], Big(n)[2], Big(n)[3]);
    WordOfBytes(n);
  }

  // ---------------------------------------------------------------- the structure block

  /** A token of the structure block; the property's name stands at `nameoff` in the strings block. */
  datatype Token = Begin(name: seq<Byte>) | Prop(name: seq<Byte>, nameoff: nat, value: seq<Byte>) | EndNode | Nop | End

  function Encode(t: Token): (r: seq<Byte>)
    ensures |r| >= 4
  {
    match t
    case Begin(name) => Big(BEGIN_NODE) + Padded(0, name + [0])
    case Prop(_, nameoff, value) => Big(PROP) + Big(|value|) + Big(nameoff) + Padded(0, value)
    case EndNode => Big(END_NODE)
    case Nop => Big(NOP)
    case End => Big(END)
  }

  function EncodeAll(ts: seq<Token>): seq<Byte> {
    if ts == [] then [] else Encode(ts[0]) + EncodeAll(ts[1..])
  }

  lemma {:induction false} EncodeAligned(t: Token)
    ensures |Encode(t)| % 4 == 0
  {
    hide Padded, Big, AlignUp4;
    match t {
      case Begin(name) => assert |Encode(t)| == 4 + AlignUp4(|name + [0]|);
      case Prop(_, nameoff, value) => assert |Encode(t)| == 12 + AlignUp4(|value|);
      case _ =>
    }
  }

  /** The token has an encoding, and the strings block at `names` holds the name of a property. */
  predicate Encodable(m: seq<Byte>, names: nat, t: Token) {
    match t
    case Begin(name) => NulFree(name)
    case Prop(name, nameoff, value) =>
      NulFree(name) && nameoff < WORD32 && |value| < WORD32 && Holds(m, names + nameoff, name + [0])
    case _ => true
  }

  /** What the callback is told: the token, the name, the value. */
  datatype Call = Call(token: nat, name: seq<Byte>, value: seq<Byte>)

  function CallOf(t: Token): Call {
    match t
    case Begin(name) => Call(BEGIN_NODE, name, [])
    case Prop(name, _, value) => Call(PROP, name, value)
    case EndNode => Call(END_NODE, [], [])
    case Nop => Call(NOP, [], [])
    case End => Call(END, [], [])
  }

  function CallsOf(ts: seq<Token>): seq<Call> {
    if ts == [] then [] else [CallOf(ts[0])] + CallsOf(ts[1..])
  }

  // ---------------------------------------------------------------- traversal

  /** One turn of the loop of `fdt_traverse` at `ptr`: where it goes on, and the call made, if any. */
  function Turn(m: seq<Byte>, names: nat, ptr: nat): (r: (nat, seq<Call>))
    ensures r.0 > ptr
  {
    var token := ReadBig(m, ptr);
    if token == BEGIN_NODE then
      (AlignUp4(ptr + 4 + StrLen(m, ptr + 4) + 1), [Call(token, CString(m, ptr + 4), [])])
    else if token == PROP then
      var len := ReadBig(m, ptr + 4);
      (AlignUp4(ptr + 12 + len), [Call(token, CString(m, names + ReadBig(m, ptr + 8)), Stretch(m, ptr + 12, len))])
    else if token == END_NODE || token == NOP || token == END then (ptr + 4, [Call(token, [], [])])
    else (ptr + 4, [])
  }

  /** The calls made between `ptr` and `end`, and where the loop stops. */
  function Traverse(m: seq<Byte>, names: nat, ptr: nat, end: nat): (r: (nat, seq<Call>))
    decreases end - ptr
  {
    if ptr >= end then (ptr, [])
    else
      var now := Turn(m, names, ptr);
      var later := Traverse(m, names, now.0, end);
      (later.0, now.1 + later.1)
  }

  /** A word that is no token is passed over, without a call. */
  lemma {:induction false} PassesOver(m: seq<Byte>, names: nat, ptr: nat, end: nat)
    requires ptr < end && ReadBig(m, ptr) !in {BEGIN_NODE, END_NODE, PROP, NOP, END}
    ensures Traverse(m, names, ptr, end) == Traverse(m, names, ptr + 4, end)
  {
    hide ReadBig, CString, Stretch, AlignUp4;
    var later := Traverse(m, names, ptr + 4, end);
    assert [] + later.1 == later.1;
  }

  lemma {:induction false} TurnReadsBegin(m: seq<Byte>, names: nat, ptr: nat, name: seq<Byte>)
    requires ptr % 4 == 0 && NulFree(name) && Holds(m, ptr, Encode(Begin(name)))
    ensures Turn(m, names, ptr) == (ptr + |Encode(Begin(name))|, [CallOf(Begin(name))])
  {
    hide ReadBig, Big, CString, Padded, StrLen, Holds, AlignUp4, Stretch;
    HoldsParts(m, ptr, Big(BEGIN_NODE), Padded(0, name + [0]));
    ReadsBig(m, ptr, BEGIN_NODE);
    HoldsPadded(m, ptr + 4, 0, name + [0]);
    CStringAt(m, ptr + 4, name);
    AlignedSum(ptr + 4, |name| + 1);
  }

  lemma {:induction false} PropParts(m: seq<Byte>, ptr: nat, nameoff: nat, value: seq<Byte>)
    requires nameoff < WORD32 && |value| < WORD32
    requires Holds(m, ptr, Big(PROP) + Big(|value|) + Big(nameoff) + Padded(0, value))
    ensures ReadBig(m, ptr) == PROP && ReadBig(m, ptr + 4) == |value| && ReadBig(m, ptr + 8) == nameoff
    ensures Stretch(m, ptr + 12, |value|) == value
  {
    hide ReadBig, Big, Zeros, Holds;
    var a, b, c, d := Big(PROP), Big(|value|), Big(nameoff), Padded(0, value);
    HoldsParts(m, ptr, a + b + c, d);
    HoldsParts(m, ptr, a + b, c);
    HoldsParts(m, ptr, a, b);
    ReadsBig(m, ptr, PROP);
    ReadsBig(m, ptr + 4, |value|);
    ReadsBig(m, ptr + 8, nameoff);
    HoldsPadded(m, ptr + 12, 0, value);
    StretchAt(m, ptr + 12, value);
  }

  lemma {:induction false} TurnReadsToken(m: seq<Byte>, names: nat, ptr: nat, t: Token)
    requires ptr % 4 == 0 && Encodable(m, names, t) && Holds(m, ptr, Encode(t))
    ensures Turn(m, names, ptr) == (ptr + |Encode(t)|, [CallOf(t)])
  {
    hide ReadBig, Big, CString, Stretch, Padded, Holds, AlignUp4;
    match t {
      case Begin(name) => TurnReadsBegin(m, names, ptr, name);
      case Prop(name, nameoff, value) =>
        PropParts(m, ptr, nameoff, value);
        CStringAt(m, names + nameoff, name);
        AlignedSum(ptr + 12, |value|);
      case EndNode => ReadsBig(m, ptr, END_NODE);
      case Nop => ReadsBig(m, ptr, NOP);
      case End => ReadsBig(m, ptr, END);
    }
  }

  /** An encoded token stream is called back token by token, and consumed to its last byte. */
  lemma {:induction false} TraverseReadsTokens(m: seq<Byte>, names: nat, ptr: nat, ts: seq<Token>)
    requires ptr % 4 == 0 && (forall t :: t in ts ==> Encodable(m, names, t)) && Holds(m, ptr, EncodeAll(ts))
    ensures Traverse(m, names, ptr, ptr + |EncodeAll(ts)|) == (ptr + |EncodeAll(ts)|, CallsOf(ts))
    decreases |ts|
  {
    hide Turn, Encode, Holds, Encodable;
    if ts != [] {
      HoldsParts(m, ptr, Encode(ts[0]), EncodeAll(ts[1..]));
      TurnReadsToken(m, names, ptr, ts[0]);
      EncodeAligned(ts[0]);
      TraverseReadsTokens(m, names, ptr + |Encode(ts[0])|, ts[1..]);
    }
  }

  // ---------------------------------------------------------------- trees

  datatype Property = Property(name: seq<Byte>, value: seq<Byte>)

  datatype Node = Node(name: seq<Byte>, props: seq<Property>, children: seq<Node>)

  function PropCalls(ps: seq<Property>): seq<Call> {
    if ps == [] then [] else [Call(PROP, ps[0].name, ps[0].value)] + PropCalls(ps[1..])
  }

  /** A node in pre-order: its name, its properties, its children, its end. */
  function NodeCalls(n: Node): seq<Call>
    decreases n, 0
  {
    [Call(BEGIN_NODE, n.name, [])] + PropCalls(n.props) + ChildCalls(n.children) + [Call(END_NODE, [], [])]
  }

  function ChildCalls(ns: seq<Node>): seq<Call>
    decreases ns, 1
  {
    if ns == [] then [] else NodeCalls(ns[0]) + ChildCalls(ns[1..])
  }

  function TreeCalls(root: Node): seq<Call> {
    NodeCalls(root) + [Call(END, [], [])]
  }

  function Erase(cs: seq<Call>): seq<Call> {
    if cs == [] then [] else (if cs[0].token == NOP then [] else [cs[0]]) + Erase(cs[1..])
  }

  // ---------------------------------------------------------------- trees as tokens

  function PropTokens(ps: seq<Property>): seq<Token> {
    if ps == [] then [] else [Prop(ps[0].name, 0, ps[0].value)] + PropTokens(ps[1..])
  }

  /** The tokens of a node in pre-order, properties before children; where names stand is left open. */
  function NodeTokens(n: Node): seq<Token>
    decreases n, 0
  {
    [Begin(n.name)] + PropTokens(n.props) + ChildTokens(n.children) + [EndNode]
  }

  function ChildTokens(ns: seq<Node>): seq<Token>
    decreases ns, 1
  {
    if ns == [] then [] else NodeTokens(ns[0]) + ChildTokens(ns[1..])
  }

  function Flatten(root: Node): seq<Token> {
    NodeTokens(root) + [End]
  }

  /** The token without where the name of a property stands. */
  function Plain(t: Token): Token {
    if t.Prop? then t.(nameoff := 0) else t
  }

  /** The tokens without NOPs, and without where names stand. */
  function Core(ts: seq<Token>): seq<Token> {
    if ts == [] then [] else if ts[0].Nop? then Core(ts[1..]) else [Plain(ts[0])] + Core(ts[1..])
  }

  /** The tokens flatten the tree, with any number of NOPs among them and the names anywhere. */
  predicate TokensOf(root: Node, ts: seq<Token>) {
    Core(ts) == Flatten(root)
  }

  lemma {:induction false} CallsConcat(a: seq<Token>, b: seq<Token>)
    ensures CallsOf(a + b) == CallsOf(a) + CallsOf(b)
  {
    if a == [] {
      assert a + b == b;
    } else {
      assert (a + b)[1..] == a[1..] + b;
      CallsConcat(a[1..], b);
    }
  }

  lemma {:induction false} PropTokensCall(ps: seq<Property>)
    ensures CallsOf(PropTokens(ps)) == PropCalls(ps)
  {
    if ps != [] {
      PropTokensCall(ps[1..]);
      assert PropTokens(ps)[1..] == PropTokens(ps[1..]);
    }
  }

  lemma {:induction false} NodeTokensCall(n: Node)
    ensures CallsOf(NodeTokens(n)) == NodeCalls(n)
    decreases n, 0
  {
    PropTokensCall(n.props);
    ChildTokensCall(n.children);
    OneCall(Begin(n.name));
    OneCall(EndNode);
    var a, b, c, d := [Begin(n.name)], PropTokens(n.props), ChildTokens(n.children), [EndNode];
    CallsConcat(a + b + c, d);
    CallsConcat(a + b, c);
    CallsConcat(a, b);
  }

  lemma {:induction false} OneCall(t: Token)
    ensures CallsOf([t]) == [CallOf(t)]
  {
  }

  lemma {:induction false} ChildTokensCall(ns: seq<Node>)
    ensures CallsOf(ChildTokens(ns)) == ChildCalls(ns)
    decreases ns, 1
  {
    if ns != [] {
      NodeTokensCall(ns[0]);
      ChildTokensCall(ns[1..]);
      CallsConcat(NodeTokens(ns[0]), ChildTokens(ns[1..]));
    }
  }

  /** The flattening of a tree is told as the tree. */
  lemma {:induction false} FlattenCalls(root: Node)
    ensures CallsOf(Flatten(root)) == TreeCalls(root)
  {
    NodeTokensCall(root);
    OneCall(End);
    CallsConcat(NodeTokens(root), [End]);
  }

  /** Erasing NOPs from the calls is dropping them from the tokens. */
  lemma {:induction false} EraseIsCore(ts: seq<Token>)
    ensures Erase(CallsOf(ts)) == CallsOf(Core(ts))
  {
    if ts != [] {
      EraseIsCore(ts[1..]);
      var c, rest := CallOf(ts[0]), CallsOf(ts[1..]);
      assert CallsOf(ts) == [c] + rest && ([c] + rest)[1..] == rest;
      assert CallOf(Plain(ts[0])) == c && (c.token == NOP <==> ts[0].Nop?);
      hide CallOf, Plain;
      if !ts[0].Nop? {
        assert Core(ts)[1..] == Core(ts[1..]);
      }
    }
  }

  /** A callback that passes over NOPs is told exactly the tree that was flattened. */
  lemma {:induction false} TraverseReadsTree(m: seq<Byte>, names: nat, ptr: nat, root: Node, ts: seq<Token>)
    requires TokensOf(root, ts)
    requires ptr % 4 == 0 && (forall t :: t in ts ==> Encodable(m, names, t)) && Holds(m, ptr, EncodeAll(ts))
    ensures var r := Traverse(m, names, ptr, ptr + |EncodeAll(ts)|);
      r.0 == ptr + |EncodeAll(ts)| && Erase(r.1) == TreeCalls(root)
  {
    TraverseReadsTokens(m, names, ptr, ts);
    EraseIsCore(ts);
    FlattenCalls(root);
  }

  /** The calls of a property list end where the next call is no property. */
  lemma {:induction false} PropCallsTell(a: seq<Property>, b: seq<Property>, x: seq<Call>, y: seq<Call>)
    requires PropCalls(a) + x == PropCalls(b) + y && x != [] && y != [] && x[0].token != PROP && y[0].token != PROP
    ensures a == b && x == y
  {
    var s, t := PropCalls(a) + x, PropCalls(b) + y;
    assert if a == [] then s == x else s[0] == Call(PROP, a[0].name, a[0].value);
    assert if b == [] then t == y else t[0] == Call(PROP, b[0].name, b[0].value);
    if a != [] && b != [] {
      assert s[1..] == PropCalls(a[1..]) + x && t[1..] == PropCalls(b[1..]) + y;
      PropCallsTell(a[1..], b[1..], x, y);
      assert a == [a[0]] + a[1..] && b == [b[0]] + b[1..];
    }
  }

  lemma {:induction false} NoPropFirst(ns: seq<Node>, x: seq<Call>)
    requires x != [] && x[0].token != PROP
    ensures ChildCalls(ns) + x != [] && (ChildCalls(ns) + x)[0].token != PROP
  {
  }

  lemma {:induction false} NodeCallsTell(a: Node, b: Node, x: seq<Call>, y: seq<Call>)
    requires NodeCalls(a) + x == NodeCalls(b) + y
    ensures a == b && x == y
    decreases a, 0
  {
    var s, t := NodeCalls(a) + x, NodeCalls(b) + y;
    hide PropCalls, ChildCalls;
    var e := [Call(END_NODE, [], [])];
    assert s[0] == Call(BEGIN_NODE, a.name, []) && t[0] == Call(BEGIN_NODE, b.name, []);
    assert s[1..] == PropCalls(a.props) + (ChildCalls(a.children) + (e + x));
    assert t[1..] == PropCalls(b.props) + (ChildCalls(b.children) + (e + y));
    NoPropFirst(a.children, e + x);
    NoPropFirst(b.children, e + y);
    PropCallsTell(a.props, b.props, ChildCalls(a.children) + (e + x), ChildCalls(b.children) + (e + y));
    ChildCallsTell(a.children, b.children, e + x, e + y);
    assert x == (e + x)[1..] && y == (e + y)[1..];
  }

  lemma {:induction false} ChildCallsTell(a: seq<Node>, b: seq<Node>, x: seq<Call>, y: seq<Call>)
    requires ChildCalls(a) + x == ChildCalls(b) + y
    requires x != [] && y != [] && x[0].token == END_NODE && y[0].token == END_NODE
    ensures a == b && x == y
    decreases a, 1
  {
    var s, t := ChildCalls(a) + x, ChildCalls(b) + y;
    assert if a == [] then s == x else s[0] == Call(BEGIN_NODE, a[0].name, []);
    assert if b == [] then t == y else t[0] == Call(BEGIN_NODE, b[0].name, []);
    if a != [] && b != [] {
      assert s == NodeCalls(a[0]) + (ChildCalls(a[1..]) + x);
      assert t == NodeCalls(b[0]) + (ChildCalls(b[1..]) + y);
      NodeCallsTell(a[0], b[0], ChildCalls(a[1..]) + x, ChildCalls(b[1..]) + y);
      ChildCallsTell(a[1..], b[1..], x, y);
      assert a == [a[0]] + a[1..] && b == [b[0]] + b[1..];
    }
  }

  /** No two trees have the same tokens. */
  lemma {:induction false} TokensDetermineTree(a: Node, b: Node, ts: seq<Token>)
    requires TokensOf(a, ts) && TokensOf(b, ts)
    ensures a == b
  {
    FlattenCalls(a);
    FlattenCalls(b);
    CallsDetermineTree(a, b);
  }

  /** The calls determine the tree: two trees with the same calls are the same tree. */
  lemma {:induction false} CallsDetermineTree(a: Node, b: Node)
    requires TreeCalls(a) == TreeCalls(b)
    ensures a == b
  {
    NodeCallsTell(a, b, [Call(END, [], [])], [Call(END, [], [])]);
  }

  // ---------------------------------------------------------------- the loop

  const OFF_DT_STRUCT: nat := 8
  const OFF_DT_STRINGS: nat := 12
  const SIZE_DT_STRUCT: nat := 36

  /** What the callback is told of the blob at `dtb`. */
  function BlobCalls(m: seq<Byte>, dtb: nat): seq<Call> {
    if ReadBig(m, dtb) != MAGIC then []
    else
      var ptr := dtb + ReadBig(m, dtb + OFF_DT_STRUCT);
      Traverse(m, dtb + ReadBig(m, dtb + OFF_DT_STRINGS), ptr, ptr + ReadBig(m, dtb + SIZE_DT_STRUCT)).1
  }

  /** The blob at `dtb` has a header, and its structure block, `off` bytes on, consists of the tokens `ts`. */
  predicate Blob(m: seq<Byte>, dtb: nat, off: nat, strings: nat, ts: seq<Token>) {
    off < WORD32 && strings < WORD32 && |EncodeAll(ts)| < WORD32 &&
    Holds(m, dtb, Big(MAGIC)) &&
    Holds(m, dtb + OFF_DT_STRUCT, Big(off)) &&
    Holds(m, dtb + OFF_DT_STRINGS, Big(strings)) &&
    Holds(m, dtb + SIZE_DT_STRUCT, Big(|EncodeAll(ts)|)) &&
    Holds(m, dtb + off, EncodeAll(ts)) &&
    (forall t :: t in ts ==> Encodable(m, dtb + strings, t))
  }

  /** A tree flattened into a blob, with NOPs anywhere, is called back whole, in order, and nothing else. */
  lemma {:induction false} BlobCallsAreTheTree(m: seq<Byte>, dtb: nat, off: nat, strings: nat, ts: seq<Token>, root: Node)
    requires Blob(m, dtb, off, strings, ts) && (dtb + off) % 4 == 0 && TokensOf(root, ts)
    ensures Erase(BlobCalls(m, dtb)) == TreeCalls(root)
  {
    hide ReadBig, Big, Holds, Traverse, Encodable, EncodeAll, TokensOf, Erase, TreeCalls;
    ReadsBig(m, dtb, MAGIC);
    ReadsBig(m, dtb + OFF_DT_STRUCT, off);
    ReadsBig(m, dtb + OFF_DT_STRINGS, strings);
    ReadsBig(m, dtb + SIZE_DT_STRUCT, |EncodeAll(ts)|);
    TraverseReadsTree(m, dtb + strings, dtb + off, root, ts);
  }

  /** The body of the loop. */
  method TakeToken(m: seq<Byte>, name_start: nat, start: nat) returns (ptr: nat, told: seq<Call>)
    ensures (ptr, told) == Turn(m, name_start, start)
  {
    hide ReadBig, AlignUp4, StrLen, Stretch, CString;
    ptr := start;
    var token := ReadBig(m, ptr);
    ptr := ptr + 4;
    if token == BEGIN_NODE {
      told := [Call(token, CString(m, ptr), [])];
      var n := StringLength(m, ptr);
      ptr := ptr + n + 1;
      ptr := AlignUp4(ptr);
    } else if token == PROP {
      var len := ReadBig(m, ptr);
      ptr := ptr + 4;
      var name := name_start + ReadBig(m, ptr);
      ptr := ptr + 4;
      told := [Call(token, CString(m, name), Stretch(m, ptr, len))];
      ptr := ptr + len;
      ptr := AlignUp4(ptr);
    } else if token == END_NODE || token == NOP || token == END {
      told := [Call(token, [], [])];
    } else {
      told := [];
    }
  }

  lemma {:induction false} TraverseTurn(m: seq<Byte>, names: nat, ptr: nat, end: nat, told: seq<Call>)
    requires ptr < end
    ensures var (next, calls) := Turn(m, names, ptr);
      told + Traverse(m, names, ptr, end).1 == told + calls + Traverse(m, names, next, end).1
  {
  }

  lemma {:induction false} TraverseEnds(m: seq<Byte>, names: nat, ptr: nat, end: nat)
    requires ptr >= end
    ensures Traverse(m, names, ptr, end) == (ptr, [])
  {
  }

  /** `fdt_traverse` of the blob at `dtb`; the calls are those made of the callback, in order. */
  method FdtTraverse(m: seq<Byte>, dtb: nat) returns (calls: seq<Call>)
    ensures calls == BlobCalls(m, dtb)
  {
    hide ReadBig, Turn, Traverse;
    calls := [];
    if ReadBig(m, dtb) != MAGIC {
      return;
    }
    var size := ReadBig(m, dtb + SIZE_DT_STRUCT);
    var ptr := dtb + ReadBig(m, dtb + OFF_DT_STRUCT);
    var name_start := dtb + ReadBig(m, dtb + OFF_DT_STRINGS);
    var end := ptr + size;
    ghost var start := ptr;
    assert calls + Traverse(m, name_start, ptr, end).1 == Traverse(m, name_start, ptr, end).1;
    while ptr < end
      invariant Traverse(m, name_start, start, end).1 == calls + Traverse(m, name_start, ptr, end).1
      decreases end - ptr
    {
      var next, told := TakeToken(m, name_start, ptr);
      TraverseTurn(m, name_start, ptr, end, calls);
      calls := calls + told;
      ptr := next;
    }
    assert Traverse(m, name_start, ptr, end).1 == [] by {
      TraverseEnds(m, name_start, ptr, end);
    }
  }
}
