/**
 A bounded queue of messages kept in one byte buffer: what it is meant to hold, and the buffer that holds it.
 */
module BufferQueue {
  import opened Basics
  import opened MachineInts

  /** Two ints, a time stamp of eight bytes and an object number. */
  const LINE_OVERHEAD := 2 * 4 + 8 + 4

  datatype Message = Message(player: int, kind: int, time: int, text: Text)

  /** A message the buffers around the queue have room for. */
  predicate Proper(m: Message) {
    IsInt(m.player) && IsInt(m.kind) && IsLong(m.time) && |m.text| < BUFFER_LEN
  }

  /** The bytes a message takes. */
  function Room(m: Message): nat { |m.text| + 1 + LINE_OVERHEAD }

  function Used(q: seq<Message>): nat {
    if q == [] then 0 else Room(q[0]) + Used(q[1..])
  }

  lemma {:induction false} UsedAppend(p: seq<Message>, q: seq<Message>)
    ensures Used(p + q) == Used(p) + Used(q)
  {
    if p == [] {
      assert p + q == q;
    } else {
      assert (p + q)[1..] == p[1..] + q;
      UsedAppend(p[1..], q);
    }
  }

  // ----- the queue as it is meant -----

  /** How many of the oldest messages have to go for that many bytes. */
  function Skips(q: seq<Message>, space: int): (k: nat)
    ensures k <= |q|
  {
    if space <= 0 || q == [] then 0 else 1 + Skips(q[1..], space - Room(q[0]))
  }

  /** They are the fewest that make up the bytes, or all. */
  lemma {:induction false} SkipsFewest(q: seq<Message>, space: int)
    ensures var k := Skips(q, space);
            (k < |q| ==> Used(q[..k]) >= space) && forall j :: 0 <= j < k ==> Used(q[..j]) < space
  {
    var k := Skips(q, space);
    if k > 0 {
      SkipsFewest(q[1..], space - Room(q[0]));
      forall j | 0 <= j <= k ensures Used(q[..j]) == if j == 0 then 0 else Room(q[0]) + Used(q[1..][..j - 1]) {
        if j > 0 { assert q[..j][1..] == q[1..][..j - 1]; }
      }
    }
  }

  datatype Op =
    | Post(message: Message)
    | Resize(lines: nat, memory: bool)

  /** The queue and its size in bytes. */
  datatype Queue = Queue(messages: seq<Message>, size: nat) {
    ghost predicate Fits() { Used(messages) <= size }
  }

  function Dropped(q: Queue, space: int): Queue {
    q.(messages := q.messages[Skips(q.messages, space)..])
  }

  /** If the message does not fit behind the others, old ones go, of as many bytes as the new one takes. */
  function MadeRoom(q: Queue, m: Message): Queue {
    if q.messages != [] && q.size - Used(q.messages) < Room(m) then Dropped(q, Room(m)) else q
  }

  function Posted(q: Queue, m: Message): Queue {
    if Room(m) > q.size then q else Queue(MadeRoom(q, m).messages + [m], q.size)
  }

  function BytesFor(lines: nat): nat { lines * (BUFFER_LEN + 2 * LINE_OVERHEAD) }

  function Resized(q: Queue, lines: nat, memory: bool): Queue {
    var bytes := BytesFor(lines);
    if q.size == bytes then q
    else
      var q' := if q.size > bytes && Used(q.messages) >= bytes then Dropped(q, Used(q.messages) - bytes) else q;
      if memory then q'.(size := bytes) else q'
  }

  function Step(q: Queue, op: Op): Queue {
    match op
    case Post(m) => Posted(q, m)
    case Resize(lines, memory) => Resized(q, lines, memory)
  }

  function Run(q: Queue, ops: seq<Op>): Queue
    decreases |ops|
  {
    if ops == [] then q else Run(Step(q, ops[0]), ops[1..])
  }

  /** The message a step takes in: the buffer as it is then has to be large enough. */
  function Taken(q: Queue, op: Op): seq<Message> {
    if op.Post? && Room(op.message) <= q.size then [op.message] else []
  }

  function Accepted(q: Queue, ops: seq<Op>): seq<Message>
    decreases |ops|
  {
    if ops == [] then [] else Taken(q, ops[0]) + Accepted(Step(q, ops[0]), ops[1..])
  }

  predicate IsSuffix<T(==)>(s: seq<T>, t: seq<T>) {
    |s| <= |t| && t[|t| - |s|..] == s
  }

  lemma SuffixTrans<T>(r: seq<T>, s: seq<T>, t: seq<T>)
    requires IsSuffix(r, s) && IsSuffix(s, t)
    ensures IsSuffix(r, t)
  {
  }

  lemma SuffixAppend<T>(r: seq<T>, s: seq<T>, t: seq<T>)
    requires IsSuffix(r, s)
    ensures IsSuffix(r + t, s + t)
  {
  }

  lemma DroppedFits(q: Queue, space: int)
    ensures var q' := Dropped(q, space).messages;
            IsSuffix(q', q.messages) && (q' == [] || Used(q') <= Used(q.messages) - space) &&
                Used(q') <= Used(q.messages)
  {
    var k := Skips(q.messages, space);
    SkipsFewest(q.messages, space);
    assert q.messages == q.messages[..k] + q.messages[k..];
    UsedAppend(q.messages[..k], q.messages[k..]);
  }

  lemma RoomMade(q: Queue, m: Message)
    requires q.Fits() && Room(m) <= q.size
    ensures var q' := MadeRoom(q, m).messages; Used(q') + Room(m) <= q.size && IsSuffix(q', q.messages)
  {
    hide Used, IsSuffix, Dropped, Room;
    DroppedFits(q, Room(m));
    SuffixSelf(q.messages);
    UsedOne(m);
  }

  lemma PostedKeeps(q: Queue, m: Message)
    requires q.Fits() && Room(m) <= q.size
    ensures var q' := Posted(q, m);
            q'.Fits() && IsSuffix(q'.messages, q.messages + [m]) &&
            q'.messages != [] && q'.messages[|q'.messages| - 1] == m
  {
    hide Used, IsSuffix, MadeRoom, Room;
    var q1 := MadeRoom(q, m).messages;
    RoomMade(q, m);
    UsedAppend(q1, [m]);
    UsedOne(m);
    SuffixAppend(q1, q.messages, [m]);
  }

  lemma DroppedSize(q: Queue, space: int)
    ensures Dropped(q, space).size == q.size
  {
  }

  lemma UsedOne(m: Message)
    ensures Used([m]) == Room(m) && Used([]) == 0
  {
  }

  lemma SuffixSelf<T>(s: seq<T>)
    ensures IsSuffix(s, s)
  {
  }

  lemma ResizedKeeps(q: Queue, lines: nat, memory: bool)
    requires q.Fits()
    ensures var q' := Resized(q, lines, memory); q'.Fits() && IsSuffix(q'.messages, q.messages)
  {
    hide Used, IsSuffix, Dropped, BytesFor;
    var space := Used(q.messages) - BytesFor(lines);
    DroppedFits(q, space);
    DroppedSize(q, space);
    SuffixSelf(q.messages);
    UsedOne(Message(0, 0, 0, []));
  }

  /** One step: what is held never passes the size, the oldest messages go, and a new one is whole at the end. */
  lemma StepKeeps(q: Queue, op: Op)
    requires q.Fits()
    ensures var q' := Step(q, op);
            q'.Fits() && IsSuffix(q'.messages, q.messages + Taken(q, op)) &&
            (op.Post? && Room(op.message) <= q.size ==>
               q'.messages != [] && q'.messages[|q'.messages| - 1] == op.message)
  {
    hide Used, IsSuffix, Dropped, Resized;
    assert q.messages + [] == q.messages;
    SuffixSelf(q.messages);
    match op {
      case Post(m) => if Room(m) <= q.size { PostedKeeps(q, m); }
      case Resize(lines, memory) => ResizedKeeps(q, lines, memory);
    }
  }

  /** Through any run the queue holds a suffix of the messages it took in, in order, within its size. */
  lemma {:induction false} RunKeeps(q: Queue, ops: seq<Op>)
    requires q.Fits()
    ensures Run(q, ops).Fits() && IsSuffix(Run(q, ops).messages, q.messages + Accepted(q, ops))
    decreases |ops|
  {
    hide Used, IsSuffix, Step, Taken;
    if ops == [] {
      assert q.messages + [] == q.messages;
      SuffixSelf(q.messages);
    } else {
      var q1 := Step(q, ops[0]);
      StepKeeps(q, ops[0]);
      RunKeeps(q1, ops[1..]);
      var first, rest := Taken(q, ops[0]), Accepted(q1, ops[1..]);
      SuffixAppend(q1.messages, q.messages + first, rest);
      assert q.messages + first + rest == q.messages + Accepted(q, ops);
      SuffixTrans(Run(q, ops).messages, q1.messages + rest, q.messages + Accepted(q, ops));
    }
  }

  /** What posting leaves: nothing new if the message takes more bytes than there are at all; everything and the message
      if there is room; and otherwise no more of the oldest messages go than have to, so that as many bytes are free as
      the message takes, or all of them. */
  lemma PostedExactly(q: Queue, m: Message)
    requires q.Fits()
    ensures var q' := Posted(q, m);
            var k := |q.messages| + 1 - |q'.messages|;
            q'.size == q.size &&
            if |m.text| + 21 > q.size then q' == q
            else if Used(q.messages) + |m.text| + 21 <= q.size then q'.messages == q.messages + [m]
            else 0 <= k <= |q.messages| && q'.messages == q.messages[k..] + [m] &&
                 (k < |q.messages| ==> Used(q.messages[..k]) >= |m.text| + 21) &&
                 forall j :: 0 <= j < k ==> Used(q.messages[..j]) < |m.text| + 21
  {
    hide Used, Skips;
    SkipsFewest(q.messages, Room(m));
    UsedOne(m);
  }

  /** What a change of size leaves: the size is the one asked for if there was memory for it, and messages go only when
      the buffer shrinks and they do not all fit, no more of the oldest than have to. */
  lemma ResizedExactly(q: Queue, lines: nat, memory: bool)
    ensures var q' := Resized(q, lines, memory);
            var bytes := lines * 8232;
            var k := |q.messages| - |q'.messages|;
            q'.size == (if memory then bytes else q.size) && 0 <= k && q'.messages == q.messages[k..] &&
            (q.size <= bytes || Used(q.messages) <= bytes ==> k == 0) &&
            (q.size > bytes ==>
               (k < |q.messages| ==> Used(q.messages[..k]) >= Used(q.messages) - bytes) &&
               forall j :: 0 <= j < k ==> Used(q.messages[..j]) < Used(q.messages) - bytes)
  {
    hide Used, Dropped;
    var bytes := BytesFor(lines);
    DroppedExactly(q, Used(q.messages) - bytes);
    DroppedSize(q, Used(q.messages) - bytes);
    assert q.messages[0..] == q.messages;
    if q.size == bytes {
      assert Resized(q, lines, memory) == q;
    } else if q.size > bytes && Used(q.messages) >= bytes {
      assert Resized(q, lines, memory).messages == Dropped(q, Used(q.messages) - bytes).messages;
    } else {
      assert Resized(q, lines, memory).messages == q.messages;
    }
  }

  lemma DroppedExactly(q: Queue, space: int)
    ensures var q' := Dropped(q, space).messages; var k := |q.messages| - |q'|;
            0 <= k && q' == q.messages[k..] && (space <= 0 ==> k == 0) &&
            (k < |q.messages| ==> Used(q.messages[..k]) >= space) &&
            forall j :: 0 <= j < k ==> Used(q.messages[..j]) < space
  {
    hide Used;
    SkipsFewest(q.messages, space);
  }

  // ----- the bytes -----

  function Line(m: Message): (bs: seq<Byte>)
    ensures |bs| == Room(m)
  {
    EncodeInt(|m.text|) + EncodeInt(m.player) + EncodeInt(m.kind) + EncodeLong(m.time) + m.text + [0]
  }

  function Bytes(q: seq<Message>): (bs: seq<Byte>)
    ensures |bs| == Used(q)
  {
    if q == [] then [] else Line(q[0]) + Bytes(q[1..])
  }

  lemma {:induction false} BytesAppend(p: seq<Message>, q: seq<Message>)
    ensures Bytes(p + q) == Bytes(p) + Bytes(q)
  {
    if p == [] {
      assert p + q == q;
    } else {
      assert (p + q)[1..] == p[1..] + q;
      BytesAppend(p[1..], q);
    }
  }
}
