/** Messages inside fields, to any depth. */
module Nested {
  import opened Bytes
  import opened FieldTypes
  import opened Wire
  import opened Machine
  import opened Messages

  //// Embedding a message and getting it back.

  /** Bytes a payload can be loaded from. */
  ghost predicate Loadable(m: seq<byte>) {
    3 <= |m| && LoadStatus(m) == Ok && 3 + m[2] <= |m|
  }

  /** What loading bytes reports. */
  function CreateStatus(bytes: seq<byte>): Status
    requires bytes == [] || 3 <= |bytes|
  {
    if bytes == [] then InvalidArg else LoadStatus(bytes)
  }

  /** What is there after loading bytes: nothing for no bytes, an empty message for a version too new. */
  ghost predicate LoadedFrom(p: Payload?, bytes: seq<byte>)
    reads p, if p == null then {} else {p.buffer}
  {
    && (bytes == [] ==> p == null)
    && (|bytes| >= 3 && LoadStatus(bytes) != Ok ==> p != null && p.Valid() && p.Abs() == State(FRESH_HEAD, []))
    && (|bytes| >= 3 && LoadStatus(bytes) == Ok ==>
      && p != null && p.tail <= p.buffer.Length && p.Live() == bytes
      && p.scratch != p.buffer && p.HeaderSize() == 3 + bytes[2] as nat
      && (Loadable(bytes) <==> p.Sound())
      && (WellFormed(bytes) ==> p.Valid() && p.Abs() == Reading(bytes)))
  }

  /** omnmmsgPayload_createFromByteBuffer. */
  method CreateFrom(bytes: seq<byte>) returns (p: Payload?, status: Status)
    requires bytes == [] || 3 <= |bytes|
    ensures p != null ==> fresh(p) && fresh(p.buffer) && fresh(p.scratch)
    ensures status == CreateStatus(bytes) && LoadedFrom(p, bytes)
  {
    hide WellFormed, Reading;
    if |bytes| == 0 {
      return null, InvalidArg;
    }
    var created := new Payload();
    status := created.UnSerialize(bytes);
    p := created;
  }

  /** omnmmsgPayload_addMsg, given the payload of the message. */
  method AddMsg(p: Payload, k: Key, value: Payload) returns (status: Status)
    requires p.Valid() && KeyOk(k) && value != p && value.tail <= value.buffer.Length
    modifies p`buffer, p`tail, p.buffer
    ensures p.Valid() && (p.buffer == old(p.buffer) || fresh(p.buffer))
    ensures var r := Add(old(p.Abs()).fields, Msg, k, Some(old(value.Live())));
      status == r.status && p.Abs() == old(p.Abs()).(fields := r.fields)
  {
    hide WellFormed, Reading, LiveBytes;
    var bytes := value.Serialize();
    status := p.AddField(Msg, k, Some(bytes));
  }

  /** OmnmPayloadImpl::updateSubMsg. The length of a larger message than the prefix can hold is truncated. */
  method UpdateSubMsg(p: Payload, k: Key, value: Payload) returns (status: Status)
    requires p.Valid() && KeyOk(k)
    requires value != p && value.tail <= value.buffer.Length && value.tail <= MAX_DATA
    requires Resizes(p.Abs().fields, k, Some(value.Live())) ==> p.tail < INT32_LIMIT
    modifies p`buffer, p`tail, p.buffer
    ensures p.Sound() && (p.buffer == old(p.buffer) || fresh(p.buffer))
    ensures var r := Update(old(p.Abs()).fields, Msg, k, Some(old(value.Live()))); var next := old(p.Abs()).(fields := r.fields);
      && status == r.status && p.Live() == LiveBytes(next)
      && ((status == Ok ==> old(value.tail) < UINT32_LIMIT) <==> p.Valid() && p.Abs() == next)
  {
    hide WellFormed, Reading, LiveBytes, Update, KeepsShape;
    var bytes := value.Serialize();
    if Update(p.Abs().fields, Msg, k, Some(bytes)).status == Ok {
      PrefixedKeepsExactly(p.Abs().fields, Msg, k, Some(bytes));
    }
    status := p.UpdateField(Msg, k, Some(bytes));
  }

  /** omnmmsgFieldPayload_getMsg: load a new payload from the field's data. */
  method GetMsg(p: Payload, h: Handle, ghost i: nat) returns (status: Status, result: Payload?)
    requires p.Valid() && i < |p.Abs().fields| && h == HandleOf(p.Abs(), i)
    requires h.ftype == Msg ==> p.Abs().fields[i].data == [] || 3 <= |p.Abs().fields[i].data|
    ensures result != null ==> fresh(result) && fresh(result.buffer) && fresh(result.scratch)
    ensures h.ftype != Msg ==> result == null && status == WrongFieldType
    ensures h.ftype == Msg ==> status == CreateStatus(p.Abs().fields[i].data) && LoadedFrom(result, p.Abs().fields[i].data)
  {
    hide WellFormed, Reading, FieldStart, LoadedFrom;
    if h.ftype != Msg {
      return WrongFieldType, null;
    }
    p.DataHere(i);
    result, status := CreateFrom(p.buffer[h.dataAt..h.dataAt + h.size]);
  }

  //// Message trees.

  datatype Tree = Tree(nodes: seq<Node>)
  datatype Node = Leaf(field: Field) | Sub(fid: nat, name: seq<byte>, body: Tree)

  /** The field a node becomes: a sub-message is serialised into the data of a MSG field. */
  function FieldOf(n: Node): (f: Field)
    decreases n, 1
  {
    match n
    case Leaf(f) => f
    case Sub(fid, name, body) => Field(Msg, fid, name, FRESH_HEAD + EncodeAll(FieldsOf(body.nodes)))
  }

  function FieldsOf(nodes: seq<Node>): (fs: seq<Field>)
    ensures |fs| == |nodes|
    decreases nodes, 0
  {
    if nodes == [] then [] else [FieldOf(nodes[0])] + FieldsOf(nodes[1..])
  }

  function TreeState(t: Tree): State {
    State(FRESH_HEAD, FieldsOf(t.nodes))
  }

  function TreeBytes(t: Tree): seq<byte> {
    LiveBytes(TreeState(t))
  }

  ghost predicate NodeOk(n: Node)
    decreases n, 1
  {
    && FieldOk(FieldOf(n))
    && match n
       case Leaf(f) => f.ftype != Msg
       case Sub(_, _, body) => NodesOk(body.nodes)
  }

  ghost predicate NodesOk(nodes: seq<Node>)
    decreases nodes, 0
  {
    nodes == [] || (NodeOk(nodes[0]) && NodesOk(nodes[1..]))
  }

  ghost predicate TreeOk(t: Tree) {
    NodesOk(t.nodes)
  }

  /** The tree a well-formed message stands for when MSG fields are opened recursively. */
  ghost function ReadTree(bytes: seq<byte>): Option<Tree>
    decreases |bytes|, 1, 0
  {
    if !WellFormed(bytes) || LoadStatus(bytes) != Ok then None
    else
      DataIsShorter(bytes);
      match ReadNodes(Reading(bytes).fields, |bytes|)
      case None => None
      case Some(nodes) => Some(Tree(nodes))
  }

  ghost function ReadNodes(fs: seq<Field>, bound: nat): (r: Option<seq<Node>>)
    requires forall f <- fs :: |f.data| < bound
    ensures r.Some? ==> |r.value| == |fs|
    decreases bound, 0, |fs|
  {
    if fs == [] then Some([])
    else
      match (ReadNode(fs[0], bound), ReadNodes(fs[1..], bound))
      case (Some(n), Some(rest)) => Some([n] + rest)
      case _ => None
  }

  ghost function ReadNode(f: Field, bound: nat): Option<Node>
    requires |f.data| < bound
    decreases bound, 0, 0
  {
    if f.ftype != Msg then Some(Leaf(f))
    else
      match ReadTree(f.data)
      case None => None
      case Some(body) => Some(Sub(f.fid, f.name, body))
  }

  lemma {:induction false} DataFits(fs: seq<Field>)
    ensures forall f <- fs :: |f.data| <= |EncodeAll(fs)|
  {
    if fs != [] {
      DataFits(fs[1..]);
    }
  }

  lemma DataIsShorter(bytes: seq<byte>)
    requires WellFormed(bytes)
    ensures forall f <- Reading(bytes).fields :: |f.data| < |bytes|
  {
    LiveOfReading(bytes);
    DataFits(Reading(bytes).fields);
  }

  lemma {:induction false} NodesGiveFields(nodes: seq<Node>)
    requires NodesOk(nodes)
    ensures AllOk(FieldsOf(nodes))
  {
    if nodes != [] {
      NodesGiveFields(nodes[1..]);
    }
  }

  lemma TreeReading(t: Tree)
    requires TreeOk(t)
    ensures WellFormed(TreeBytes(t)) && Reading(TreeBytes(t)) == TreeState(t) && LoadStatus(TreeBytes(t)) == Ok
  {
    NodesGiveFields(t.nodes);
    ReadingOfLive(TreeState(t));
    assert TreeBytes(t)[1] == FRESH_HEAD[1];
  }

  /** Serialising a message tree and opening it recursively gives the tree, at any depth. */
  lemma {:induction false} TreeRoundTrip(t: Tree)
    requires TreeOk(t)
    ensures ReadTree(TreeBytes(t)) == Some(t)
    decreases t, 1
  {
    hide WellFormed, Reading, EncodeAll, LiveBytes;
    TreeReading(t);
    DataIsShorter(TreeBytes(t));
    NodesRoundTrip(t.nodes, |TreeBytes(t)|);
  }

  lemma {:induction false} NodesRoundTrip(nodes: seq<Node>, bound: nat)
    requires NodesOk(nodes) && forall f <- FieldsOf(nodes) :: |f.data| < bound
    ensures ReadNodes(FieldsOf(nodes), bound) == Some(nodes)
    decreases nodes, 0
  {
    hide FieldOk, ReadTree, EncodeAll;
    if nodes != [] {
      var n := nodes[0];
      assert FieldsOf(nodes)[0] == FieldOf(n) && FieldsOf(nodes)[1..] == FieldsOf(nodes[1..]);
      if n.Sub? {
        TreeRoundTrip(n.body);
        assert FieldOf(n).data == TreeBytes(n.body);
      }
      NodesRoundTrip(nodes[1..], bound);
      assert [n] + nodes[1..] == nodes;
    }
  }

  //// Building and reading a tree through the interface.

  ghost predicate Keyed(f: Field) {
    f.fid != 0 || f.name != []
  }

  function KeyOf(f: Field): Key {
    Key(Some(f.name), f.fid)
  }

  /** Every node, at every depth, would be accepted by addField. */
  ghost predicate Addable(nodes: seq<Node>)
    decreases nodes, 0
  {
    nodes == [] || (Keyed(FieldOf(nodes[0])) && FieldOf(nodes[0]).data != []
      && (nodes[0].Sub? ==> Addable(nodes[0].body.nodes)) && Addable(nodes[1..]))
  }

  lemma AddsItself(fs: seq<Field>, f: Field)
    requires FieldOk(f) && Keyed(f) && f.data != []
    ensures KeyOk(KeyOf(f)) && Add(fs, f.ftype, KeyOf(f), Some(f.data)) == Outcome(fs + [f], Ok)
  {
  }

  /** Serialise a tree bottom-up with addField and addMsg. */
  method Build(t: Tree) returns (p: Payload)
    requires TreeOk(t) && Addable(t.nodes)
    ensures fresh(p) && fresh(p.buffer) && p.Valid() && p.Abs() == TreeState(t)
    ensures p.Live() == TreeBytes(t)
    decreases t, 1
  {
    p := new Payload();
    BuildNodes(p, t.nodes);
    p.AbsFacts();
    assert [] + FieldsOf(t.nodes) == FieldsOf(t.nodes);
  }

  method BuildNodes(p: Payload, nodes: seq<Node>)
    requires p.Valid() && NodesOk(nodes) && Addable(nodes)
    modifies p`buffer, p`tail, p.buffer
    ensures p.Valid() && (p.buffer == old(p.buffer) || fresh(p.buffer))
    ensures p.Abs() == old(p.Abs()).(fields := old(p.Abs()).fields + FieldsOf(nodes))
    decreases nodes, 0
  {
    hide WellFormed, Reading, FieldOk, EncodeAll, Add;
    ghost var fs := p.Abs().fields;
    if nodes == [] {
      assert fs + [] == fs;
      return;
    }
    var n := nodes[0];
    ghost var f := FieldOf(n);
    AddsItself(fs, f);
    match n {
      case Leaf(field) =>
        LeafData(field);
        var status := p.AddField(field.ftype, Key(Some(field.name), field.fid), Some(field.data));
      case Sub(fid, name, body) =>
        var sub := Build(body);
        var status := AddMsg(p, Key(Some(name), fid), sub);
    }
    BuildNodes(p, nodes[1..]);
    ConcatAssoc(fs, [f], FieldsOf(nodes[1..]));
  }

  lemma LeafData(f: Field)
    requires FieldOk(f)
    ensures DataShape(f.ftype, f.data)
  {
  }

  /** Read a message with a cursor, opening every MSG field with getMsg. */
  method Read(p: Payload) returns (t: Tree)
    requires p.Valid() && ReadTree(p.Live()).Some?
    ensures ReadTree(p.Live()) == Some(t)
    decreases |p.Live()|, 1, 0
  {
    DataIsShorter(p.Live());
    var nodes := ReadFields(p, |p.Live()|);
    t := Tree(nodes);
  }

  method ReadFields(p: Payload, ghost bound: nat) returns (nodes: seq<Node>)
    requires p.Valid() && (forall f <- p.Abs().fields :: |f.data| < bound)
    requires ReadNodes(p.Abs().fields, bound).Some?
    ensures ReadNodes(p.Abs().fields, bound) == Some(nodes)
    decreases bound, 0, 1
  {
    hide WellFormed, Reading, FieldStart, ReadNode, LoadStatus, HandleOf;
    ghost var fs := p.Abs().fields;
    var iter := new Cursor.Init(p);
    nodes := [];
    ghost var all := ReadNodes(fs, bound).value;
    ghost var j := 0;
    var r := iter.Next();
    while r.Some?
      invariant fresh(iter) && iter.msg == p && iter.Ready()
      invariant j <= |fs| == |all| && (r.Some? <==> j < |fs|)
      invariant iter.done == j + if r.Some? then 1 else 0
      invariant r.Some? ==> r.value == HandleOf(p.Abs(), j)
      invariant nodes == all[..j] && ReadNodes(fs[j..], bound) == Some(all[j..])
      decreases |fs| - j
    {
      assert fs[j..][0] == fs[j] && fs[j..][1..] == fs[j + 1..];
      assert all[j..][0] == all[j] && all[j..][1..] == all[j + 1..];
      var n := ReadField(p, r.value, j, bound);
      nodes := nodes + [n];
      j := j + 1;
      r := iter.Next();
    }
    assert all[..j] == all;
  }

  method ReadField(p: Payload, h: Handle, ghost i: nat, ghost bound: nat) returns (n: Node)
    requires p.Valid() && i < |p.Abs().fields| && h == HandleOf(p.Abs(), i)
    requires |p.Abs().fields[i].data| < bound && ReadNode(p.Abs().fields[i], bound).Some?
    ensures ReadNode(p.Abs().fields[i], bound) == Some(n)
    decreases bound, 0, 0
  {
    hide WellFormed, Reading, FieldStart, LoadStatus;
    ghost var f := p.Abs().fields[i];
    var name := HandleName(p, h, i);
    if h.ftype == Msg {
      ReadableIsLoadable(f.data);
      var status, sub := GetMsg(p, h, i);
      var body := Read(sub);
      n := Sub(h.fid, name, body);
    } else {
      p.DataHere(i);
      n := Leaf(Field(h.ftype, h.fid, name, p.buffer[h.dataAt..h.dataAt + h.size]));
    }
  }

  lemma ReadableIsLoadable(bytes: seq<byte>)
    requires ReadTree(bytes).Some?
    ensures WellFormed(bytes) && Loadable(bytes)
  {
  }

  /** What goes in comes out. */
  method BuildAndRead(t: Tree) returns (back: Tree)
    requires TreeOk(t) && Addable(t.nodes)
    ensures back == t
  {
    var p := Build(t);
    TreeRoundTrip(t);
    back := Read(p);
  }
}
