/** The md4c event queue: every parser callback allocates one node and
    appends it to a global singly linked FIFO (`head`/`tail`). */
module EventQueue {
  import opened Bytes
  import opened Md4c

  /** `NodeType` */
  datatype NodeKind = KindText | KindSpan | KindBlock

  /** Pointers the queue stores but never follows (md4c's `detail` and the
      parser's `userdata`), as addresses; 0 is NULL. */
  type Address = nat

  const NULL_ADDRESS: Address := 0

  /** The payload views of the node's union, each as `memset` leaves it
      when not written. `text` is the owned copy (`None` for NULL). */
  datatype TextFields = TextFields(textType: TextType, text: Option<seq<Byte>>, size: nat, userdata: Address)
  datatype SpanFields = SpanFields(spanType: SpanType, isEnter: bool, detail: Address, userdata: Address)
  datatype BlockFields = BlockFields(blockType: BlockType, isEnter: bool, detail: Address, userdata: Address)

  datatype Option<T> = None | Some(value: T)

  const ZERO_TEXT := TextFields(NormalText, None, 0, NULL_ADDRESS)
  const ZERO_SPAN := SpanFields(Emphasis, false, NULL_ADDRESS, NULL_ADDRESS)
  const ZERO_BLOCK := BlockFields(DocBlock, false, NULL_ADDRESS, NULL_ADDRESS)

  /** One recorded parser event, as a node of the queue reads. */
  datatype Event =
    | TextEvent(textType: TextType, text: Option<seq<Byte>>, size: nat, userdata: Address)
    | SpanEvent(spanType: SpanType, isEnter: bool, detail: Address, userdata: Address)
    | BlockEvent(blockType: BlockType, isEnter: bool, detail: Address, userdata: Address)

  class Node {
    var kind: NodeKind
    var textView: TextFields
    var spanView: SpanFields
    var blockView: BlockFields
    var next: Node?

    /** `malloc` followed by `memset(node, 0, ...)` and the two stores of
        `create_node`. */
    constructor (kind: NodeKind)
      ensures this.kind == kind && next == null
      ensures textView == ZERO_TEXT && spanView == ZERO_SPAN && blockView == ZERO_BLOCK
    {
      this.kind := kind;
      textView, spanView, blockView := ZERO_TEXT, ZERO_SPAN, ZERO_BLOCK;
      next := null;
    }

    /** The payload read through the view that `kind` selects. */
    function Read(): (e: Event)
      reads this
      ensures kind == KindText <==> e.TextEvent?
      ensures kind == KindSpan <==> e.SpanEvent?
    {
      match kind
      case KindText => TextEvent(textView.textType, textView.text, textView.size, textView.userdata)
      case KindSpan => SpanEvent(spanView.spanType, spanView.isEnter, spanView.detail, spanView.userdata)
      case KindBlock => BlockEvent(blockView.blockType, blockView.isEnter, blockView.detail, blockView.userdata)
    }
  }

  /** `create_node`: `null` when the allocation fails (`mallocOk` is the
      allocator's answer), otherwise a fresh zeroed node of the kind. */
  method CreateNode(kind: NodeKind, mallocOk: bool) returns (node: Node?)
    ensures !mallocOk ==> node == null
    ensures mallocOk ==> node != null && fresh(node) && node.kind == kind && node.next == null
    ensures mallocOk ==> node.textView == ZERO_TEXT && node.spanView == ZERO_SPAN && node.blockView == ZERO_BLOCK
  {
    if !mallocOk {
      return null;
    }
    node := new Node(kind);
  }

  /** The events a parse delivers to the callbacks, in call order. */
  datatype Callback =
    | EnterBlock(blockType: BlockType, detail: Address)
    | LeaveBlock(blockType: BlockType, detail: Address)
    | EnterSpan(spanType: SpanType, detail: Address)
    | LeaveSpan(spanType: SpanType, detail: Address)
    | TextCallback(textType: TextType, bytes: seq<Byte>)

  /** What a successful callback appends to the queue. */
  function Recorded(c: Callback, userdata: Address): (e: Event)
    ensures c.TextCallback? <==> e.TextEvent?
    ensures c.TextCallback? ==> e.text == Some(c.bytes + [NUL]) && e.size == |c.bytes|
    ensures c.EnterBlock? || c.EnterSpan? ==> (e.BlockEvent? || e.SpanEvent?) && e.isEnter
    ensures c.LeaveBlock? || c.LeaveSpan? ==> (e.BlockEvent? || e.SpanEvent?) && !e.isEnter
  {
    match c
    case EnterBlock(t, d) => BlockEvent(t, true, d, userdata)
    case LeaveBlock(t, d) => BlockEvent(t, false, d, userdata)
    case EnterSpan(t, d) => SpanEvent(t, true, d, userdata)
    case LeaveSpan(t, d) => SpanEvent(t, false, d, userdata)
    case TextCallback(t, bytes) => TextEvent(t, Some(bytes + [NUL]), |bytes|, userdata)
  }

  function RecordedAll(cs: seq<Callback>, userdata: Address): (es: seq<Event>)
    ensures |es| == |cs|
    ensures forall k :: 0 <= k < |cs| ==> es[k] == Recorded(cs[k], userdata)
  {
    if cs == [] then [] else [Recorded(cs[0], userdata)] + RecordedAll(cs[1..], userdata)
  }

  /** The index of the first callback whose allocation fails, or `|ok|`. */
  function FirstFailure(ok: seq<bool>): (f: nat)
    ensures f <= |ok|
    ensures forall k :: 0 <= k < f ==> ok[k]
    ensures f < |ok| ==> !ok[f]
  {
    if ok == [] then 0 else if !ok[0] then 0 else 1 + FirstFailure(ok[1..])
  }

  /** The global `head`/`tail` pair. `nodes` is the queue the links spell
      out from `head`; `tail` is meaningful only while `head` is not null. */
  class Queue {
    var head: Node?
    var tail: Node?
    ghost var nodes: seq<Node>

    ghost predicate Valid()
      reads this, nodes
    {
      (forall i, j :: 0 <= i < j < |nodes| ==> nodes[i] != nodes[j]) &&
      (forall i :: 0 <= i < |nodes| - 1 ==> nodes[i].next == nodes[i + 1]) &&
      (head == null <==> nodes == []) &&
      (nodes != [] ==> head == nodes[0] && tail == nodes[|nodes| - 1] && tail.next == null)
    }

    /** The events the queue holds, head first. */
    ghost function Contents(): (es: seq<Event>)
      reads this, nodes
      ensures |es| == |nodes|
    {
      seq(|nodes|, i reads this, nodes requires 0 <= i < |nodes| => nodes[i].Read())
    }

    constructor ()
      ensures Valid() && nodes == [] && head == null && tail == null
    {
      head, tail := null, null;
      nodes := [];
    }

    /** `insert_node`: append `node` at the tail; a null node is returned
        as is and nothing changes. */
    method InsertNode(node: Node?) returns (r: Node?)
      requires Valid()
      requires node != null ==> node !in nodes && node.next == null
      modifies this, if nodes == [] then {} else {nodes[|nodes| - 1]}
      ensures Valid()
      ensures r == node
      ensures node == null ==> nodes == old(nodes) && head == old(head) && tail == old(tail)
      ensures node != null ==> nodes == old(nodes) + [node] && tail == node
      ensures Contents() == old(Contents()) + (if node == null then [] else [node.Read()])
    {
      if node == null {
        return null;
      }
      if head == null {
        head, tail := node, node;
      } else {
        tail.next := node;
        tail := node;
      }
      nodes := nodes + [node];
      return node;
    }

    /** `next_node`: drop the head and return the new head (null when the
        queue held at most one node). `tail` is left as it was. */
    method NextNode() returns (r: Node?)
      requires Valid()
      modifies this
      ensures Valid()
      ensures old(nodes) == [] ==> r == null && nodes == []
      ensures old(nodes) != [] ==> nodes == old(nodes)[1..] && Contents() == old(Contents())[1..]
      ensures r == (if |nodes| > 0 then nodes[0] else null)
      ensures tail == old(tail)
    {
      if head == null {
        return null;
      }
      ghost var before := Contents();
      assert |nodes| > 1 ==> head.next == nodes[1];
      head := head.next;
      nodes := nodes[1..];
      assert forall i :: 0 <= i < |nodes| ==> Contents()[i] == before[i + 1];
      return head;
    }

    /** `free_all_nodes`: walk the chain releasing every node (and every
        text buffer), then clear both ends. `freed` lists the nodes in the
        order they are released. */
    method FreeAllNodes() returns (ghost freed: seq<Node>)
      requires Valid()
      modifies this
      ensures Valid() && nodes == [] && head == null && tail == null
      ensures freed == old(nodes)
    {
      var current := head;
      ghost var k := 0;
      freed := [];
      while current != null
        invariant 0 <= k <= |nodes|
        invariant current == (if k < |nodes| then nodes[k] else null)
        invariant freed == nodes[..k]
        decreases |nodes| - k
      {
        var next := current.next;
        freed := freed + [current];
        current := next;
        k := k + 1;
      }
      assert freed == nodes;
      head, tail := null, null;
      nodes := [];
    }

    /** `print_nodes` without the formatting: the events met following
        `next` from `head`. */
    method Traverse() returns (events: seq<Event>)
      requires Valid()
      ensures events == Contents()
    {
      var cur := head;
      ghost var k := 0;
      events := [];
      while cur != null
        invariant 0 <= k <= |nodes|
        invariant cur == (if k < |nodes| then nodes[k] else null)
        invariant events == Contents()[..k]
        decreases |nodes| - k
      {
        events := events + [cur.Read()];
        cur := cur.next;
        k := k + 1;
      }
    }

    /** Shared body of the four block and span callbacks. */
    method Record(kind: NodeKind, e: Event, mallocOk: bool) returns (rc: int)
      requires Valid()
      requires kind == KindText <==> e.TextEvent?
      requires kind == KindSpan <==> e.SpanEvent?
      modifies this, if nodes == [] then {} else {nodes[|nodes| - 1]}
      ensures Valid()
      ensures mallocOk ==> rc == 0 && |nodes| == |old(nodes)| + 1 && Contents() == old(Contents()) + [e]
      ensures mallocOk ==> |nodes| == |old(nodes)| + 1 && nodes[..|old(nodes)|] == old(nodes) && fresh(nodes[|old(nodes)|])
      ensures !mallocOk ==> rc == -1 && nodes == old(nodes) && head == old(head) && tail == old(tail) &&
                            Contents() == old(Contents())
    {
      var node := CreateNode(kind, mallocOk);
      if node == null {
        return -1;
      }
      match e {
        case TextEvent(t, text, size, u) =>
          node.textView := TextFields(t, text, size, u);
        case SpanEvent(t, isEnter, d, u) =>
          node.spanView := SpanFields(t, isEnter, d, u);
        case BlockEvent(t, isEnter, d, u) =>
          node.blockView := BlockFields(t, isEnter, d, u);
      }
      assert node.Read() == e;
      var _ := InsertNode(node);
      rc := 0;
    }

    /** `on_enter_block` */
    method OnEnterBlock(blockType: BlockType, detail: Address, userdata: Address, mallocOk: bool) returns (rc: int)
      requires Valid()
      modifies this, if nodes == [] then {} else {nodes[|nodes| - 1]}
      ensures Valid()
      ensures mallocOk ==> rc == 0 && Contents() == old(Contents()) + [BlockEvent(blockType, true, detail, userdata)]
      ensures mallocOk ==> |nodes| == |old(nodes)| + 1 && nodes[..|old(nodes)|] == old(nodes) && fresh(nodes[|old(nodes)|])
      ensures !mallocOk ==> rc == -1 && nodes == old(nodes) && head == old(head) && tail == old(tail) &&
                            Contents() == old(Contents())
    {
      rc := Record(KindBlock, BlockEvent(blockType, true, detail, userdata), mallocOk);
    }

    /** `on_leave_block` */
    method OnLeaveBlock(blockType: BlockType, detail: Address, userdata: Address, mallocOk: bool) returns (rc: int)
      requires Valid()
      modifies this, if nodes == [] then {} else {nodes[|nodes| - 1]}
      ensures Valid()
      ensures mallocOk ==> rc == 0 && Contents() == old(Contents()) + [BlockEvent(blockType, false, detail, userdata)]
      ensures mallocOk ==> |nodes| == |old(nodes)| + 1 && nodes[..|old(nodes)|] == old(nodes) && fresh(nodes[|old(nodes)|])
      ensures !mallocOk ==> rc == -1 && nodes == old(nodes) && head == old(head) && tail == old(tail) &&
                            Contents() == old(Contents())
    {
      rc := Record(KindBlock, BlockEvent(blockType, false, detail, userdata), mallocOk);
    }

    /** `on_enter_span` */
    method OnEnterSpan(spanType: SpanType, detail: Address, userdata: Address, mallocOk: bool) returns (rc: int)
      requires Valid()
      modifies this, if nodes == [] then {} else {nodes[|nodes| - 1]}
      ensures Valid()
      ensures mallocOk ==> rc == 0 && Contents() == old(Contents()) + [SpanEvent(spanType, true, detail, userdata)]
      ensures mallocOk ==> |nodes| == |old(nodes)| + 1 && nodes[..|old(nodes)|] == old(nodes) && fresh(nodes[|old(nodes)|])
      ensures !mallocOk ==> rc == -1 && nodes == old(nodes) && head == old(head) && tail == old(tail) &&
                            Contents() == old(Contents())
    {
      rc := Record(KindSpan, SpanEvent(spanType, true, detail, userdata), mallocOk);
    }

    /** `on_leave_span` */
    method OnLeaveSpan(spanType: SpanType, detail: Address, userdata: Address, mallocOk: bool) returns (rc: int)
      requires Valid()
      modifies this, if nodes == [] then {} else {nodes[|nodes| - 1]}
      ensures Valid()
      ensures mallocOk ==> rc == 0 && Contents() == old(Contents()) + [SpanEvent(spanType, false, detail, userdata)]
      ensures mallocOk ==> |nodes| == |old(nodes)| + 1 && nodes[..|old(nodes)|] == old(nodes) && fresh(nodes[|old(nodes)|])
      ensures !mallocOk ==> rc == -1 && nodes == old(nodes) && head == old(head) && tail == old(tail) &&
                            Contents() == old(Contents())
    {
      rc := Record(KindSpan, SpanEvent(spanType, false, detail, userdata), mallocOk);
    }

    /** `on_text`: the node owns a `size + 1` byte copy of the first `size`
        bytes of `text`, NUL-terminated. Either allocation may fail
        (`nodeOk`, `bufferOk`); the node is released again when the buffer
        allocation fails. */
    method OnText(textType: TextType, text: seq<Byte>, size: nat, userdata: Address, nodeOk: bool, bufferOk: bool)
      returns (rc: int)
      requires Valid()
      requires size <= |text|
      modifies this, if nodes == [] then {} else {nodes[|nodes| - 1]}
      ensures Valid()
      ensures nodeOk && bufferOk ==> rc == 0
      ensures nodeOk && bufferOk ==>
                Contents() == old(Contents()) + [TextEvent(textType, Some(text[..size] + [NUL]), size, userdata)]
      ensures nodeOk && bufferOk ==>
                |nodes| == |old(nodes)| + 1 && nodes[..|old(nodes)|] == old(nodes) && fresh(nodes[|old(nodes)|])
      ensures !(nodeOk && bufferOk) ==> rc == -1
      ensures !(nodeOk && bufferOk) ==>
                nodes == old(nodes) && head == old(head) && tail == old(tail) && Contents() == old(Contents())
    {
      var node := CreateNode(KindText, nodeOk);
      if node == null {
        return -1;
      }
      node.textView := node.textView.(textType := textType, size := size, userdata := userdata);
      if !bufferOk {
        return -1;
      }
      var buffer := CopyText(text, size);
      node.textView := node.textView.(text := Some(buffer[..]));
      assert node.Read() == TextEvent(textType, Some(text[..size] + [NUL]), size, userdata);
      var _ := InsertNode(node);
      rc := 0;
    }

    /** The `malloc(size + 1)`, `memcpy` and terminating NUL of `on_text`. */
    static method CopyText(text: seq<Byte>, size: nat) returns (buffer: array<Byte>)
      requires size <= |text|
      ensures fresh(buffer) && buffer[..] == text[..size] + [NUL]
    {
      buffer := new Byte[size + 1];
      for k := 0 to size
        invariant buffer[..k] == text[..k]
      {
        buffer[k] := text[k];
      }
      buffer[size] := NUL;
      assert buffer[..] == buffer[..size] + [buffer[size]];
    }

    /** One callback as md4c invokes it, with the allocator's answer. */
    method Dispatch(c: Callback, userdata: Address, mallocOk: bool) returns (rc: int)
      requires Valid()
      modifies this, if nodes == [] then {} else {nodes[|nodes| - 1]}
      ensures Valid()
      ensures mallocOk ==> rc == 0 && Contents() == old(Contents()) + [Recorded(c, userdata)]
      ensures mallocOk ==> |nodes| == |old(nodes)| + 1 && nodes[..|old(nodes)|] == old(nodes) && fresh(nodes[|old(nodes)|])
      ensures !mallocOk ==> rc == -1 && nodes == old(nodes) && head == old(head) && tail == old(tail) &&
                            Contents() == old(Contents())
    {
      match c
      case EnterBlock(t, d) => rc := OnEnterBlock(t, d, userdata, mallocOk);
      case LeaveBlock(t, d) => rc := OnLeaveBlock(t, d, userdata, mallocOk);
      case EnterSpan(t, d) => rc := OnEnterSpan(t, d, userdata, mallocOk);
      case LeaveSpan(t, d) => rc := OnLeaveSpan(t, d, userdata, mallocOk);
      case TextCallback(t, bytes) =>
        assert bytes[..|bytes|] == bytes;
        rc := OnText(t, bytes, |bytes|, userdata, mallocOk, mallocOk);
    }

    /** `parse_markdown`: md4c delivers `events` in order with a null
        `userdata` and stops at the first callback that returns non-zero,
        returning that value. `ok[k]` is the allocator's answer for event k. */
    method ParseMarkdown(events: seq<Callback>, ok: seq<bool>) returns (rc: int)
      requires Valid()
      requires |ok| == |events|
      modifies this, nodes
      ensures Valid()
      ensures rc == (if FirstFailure(ok) < |events| then -1 else 0)
      ensures Contents() == old(Contents()) + RecordedAll(events[..FirstFailure(ok)], NULL_ADDRESS)
    {
      var f := FirstFailure(ok);
      ghost var start := Contents();
      var j := 0;
      rc := 0;
      while j < |events|
        invariant 0 <= j <= f
        invariant Valid()
        invariant rc == 0
        invariant Contents() == start + RecordedAll(events[..j], NULL_ADDRESS)
        invariant forall n :: n in nodes ==> n in old(nodes) || fresh(n)
        decreases |events| - j
      {
        assert nodes != [] ==> nodes[|nodes| - 1] in nodes;
        rc := Dispatch(events[j], NULL_ADDRESS, ok[j]);
        if rc != 0 {
          return;
        }
        assert events[..j + 1] == events[..j] + [events[j]];
        j := j + 1;
      }
    }
  }

  /** FIFO: delivering the events of one parse to an empty queue and
      walking the queue from `head` gives back one recorded event per
      callback, in call order. */
  method FifoOrder(events: seq<Callback>) returns (walked: seq<Event>)
    ensures walked == RecordedAll(events, NULL_ADDRESS)
  {
    var q := new Queue();
    assert q.Contents() == [];
    var ok := seq(|events|, _ => true);
    assert FirstFailure(ok) == |events|;
    var rc := q.ParseMarkdown(events, ok);
    assert events[..|events|] == events;
    assert q.Contents() == RecordedAll(events, NULL_ADDRESS);
    walked := q.Traverse();
  }
}
