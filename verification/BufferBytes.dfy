/**
 The byte buffer behind a queue of messages, changed in place.
 */
module BufferBytes {
  import opened Basics
  import opened MachineInts
  import opened BufferQueue

  /** The integer stored at a place in the buffer. */
  function IntFrom(bs: seq<Byte>, p: nat): int
    requires p + 4 <= |bs|
  {
    DecodeInt(bs[p], bs[p + 1], bs[p + 2], bs[p + 3])
  }

  lemma StoredInt(bs: seq<Byte>, p: nat, n: int)
    requires IsInt(n) && p + 4 <= |bs| && forall i :: 0 <= i < 4 ==> bs[p + i] == EncodeInt(n)[i]
    ensures IntFrom(bs, p) == n
  {
    hide EncodeInt, DecodeInt;
    IntRoundTrip(n);
    assert bs[p + 0] == EncodeInt(n)[0];
  }

  /** The bytes of a line, place by place. */
  lemma LineParts(m: Message)
    ensures forall i :: 0 <= i < 4 ==> Line(m)[i] == EncodeInt(|m.text|)[i]
    ensures forall i :: 0 <= i < 4 ==> Line(m)[4 + i] == EncodeInt(m.player)[i]
    ensures forall i :: 0 <= i < 4 ==> Line(m)[8 + i] == EncodeInt(m.kind)[i]
    ensures Line(m)[12..20] == EncodeLong(m.time) && Line(m)[20..20 + |m.text|] == m.text
  {
    hide EncodeInt, EncodeLong;
  }

  /** The fields of a line, at their places. */
  lemma {:induction false} LineFields(bs: seq<Byte>, m: Message, p: nat)
    requires Proper(m) && p + Room(m) <= |bs| && bs[p..p + Room(m)] == Line(m)
    ensures IntFrom(bs, p) == |m.text| && IntFrom(bs, p + 4) == m.player && IntFrom(bs, p + 8) == m.kind
    ensures DecodeLong(bs[p + 12..p + 20]) == m.time && bs[p + 20..p + 20 + |m.text|] == m.text
  {
    hide EncodeInt, DecodeInt, DecodeLong, IntFrom, Line;
    LineParts(m);
    forall i | 0 <= i < Room(m) ensures bs[p + i] == Line(m)[i] {
      assert bs[p..p + Room(m)][i] == bs[p + i];
    }
    forall i | 0 <= i < 4 ensures bs[p + 4 + i] == EncodeInt(m.player)[i] { assert bs[p + (4 + i)] == Line(m)[4 + i]; }
    forall i | 0 <= i < 4 ensures bs[p + 8 + i] == EncodeInt(m.kind)[i] { assert bs[p + (8 + i)] == Line(m)[8 + i]; }
    StoredInt(bs, p, |m.text|);
    StoredInt(bs, p + 4, m.player);
    StoredInt(bs, p + 8, m.kind);
    assert bs[p + 12..p + 20] == bs[p..p + Room(m)][12..20];
    assert bs[p + 20..p + 20 + |m.text|] == bs[p..p + Room(m)][20..20 + |m.text|];
    IntRoundTrip(m.time / 0x1_0000_0000);
    LowRoundTrip(m.time);
    LongFromHalves(m.time, bs[p + 12..p + 20]);
  }

  /** Where the `k`th message starts. */
  lemma {:induction false} LineAt(q: seq<Message>, k: nat)
    requires k < |q|
    ensures var p := Used(q[..k]);
            Used(q[..k + 1]) == p + Room(q[k]) <= Used(q) && Bytes(q)[p..p + Room(q[k])] == Line(q[k])
  {
    hide Line, Room, Bytes, Used;
    var p, r := q[..k], q[k + 1..];
    assert q == p + [q[k]] + r;
    BytesBetween(p, q[k], r);
    assert q[..k + 1] == p + [q[k]];
    BytesLength(p);
    LineLength(q[k]);
    Middle(Bytes(p), Line(q[k]), Bytes(r));
  }

  lemma BytesBetween(p: seq<Message>, m: Message, r: seq<Message>)
    ensures Bytes(p + [m] + r) == Bytes(p) + Line(m) + Bytes(r)
    ensures Used(p + [m]) == Used(p) + Room(m) <= Used(p + [m] + r)
  {
    hide Line, Room, Bytes, Used;
    BytesAppend(p + [m], r);
    BytesAppend(p, [m]);
    BytesOne(m);
    UsedAppend(p + [m], r);
    UsedAppend(p, [m]);
    UsedOne(m);
  }

  lemma BytesLength(q: seq<Message>)
    ensures |Bytes(q)| == Used(q)
  {
  }

  lemma LineLength(m: Message)
    ensures |Line(m)| == Room(m)
  {
  }

  lemma Middle<T>(x: seq<T>, y: seq<T>, z: seq<T>)
    ensures (x + y + z)[|x|..|x| + |y|] == y
  {
  }

  lemma BytesOne(m: Message)
    ensures Bytes([m]) == Line(m)
  {
  }

  lemma SkipsFrom(q: seq<Message>, k: nat, space: int)
    requires k < |q| && space > 0
    ensures Skips(q[k..], space) == 1 + Skips(q[k + 1..], space - Room(q[k]))
  {
  }

  /** A message in the way: its bytes say how long it is. */
  lemma {:induction false} SkipOne(q: seq<Message>, k: nat)
    requires k <= |q| && Used(q[..k]) < Used(q) && forall i :: 0 <= i < |q| ==> Proper(q[i])
    ensures k < |q| && Used(q[..k]) + 4 <= |Bytes(q)|
    ensures IntFrom(Bytes(q), Used(q[..k])) == |q[k].text|
    ensures Used(q[..k + 1]) == Used(q[..k]) + Room(q[k]) <= Used(q)
  {
    hide Used, Line, IntFrom, Bytes;
    assert q[..|q|] == q;
    BytesLength(q);
    LineAt(q, k);
    LineFields(Bytes(q), q[k], Used(q[..k]));
  }

  /** What is left behind the messages that go. */
  lemma {:induction false} SkipEnd(q: seq<Message>, k: nat)
    requires k <= |q|
    ensures Used(q[..k]) <= Used(q) && Bytes(q)[Used(q[..k])..] == Bytes(q[k..])
    ensures Used(q[..k]) == Used(q) <==> k == |q|
  {
    hide Line;
    assert q == q[..k] + q[k..];
    BytesAppend(q[..k], q[k..]);
    UsedAppend(q[..k], q[k..]);
    if k < |q| { assert Used(q[k..]) >= Room(q[k]); }
  }

  class BufferQ {
    var buffer: array<Byte>
    var bufferEnd: nat
    var bufferSize: nat
    var numBuffered: int
    var lastString: Text
    ghost var messages: seq<Message>

    ghost predicate Valid()
      reads this, buffer
    {
      bufferEnd <= bufferSize == buffer.Length && buffer[..bufferEnd] == Bytes(messages) &&
      numBuffered == |messages| && forall i :: 0 <= i < |messages| ==> Proper(messages[i])
    }

    /** What the buffer stands for. */
    ghost function Content(): Queue
      reads this
    {
      Queue(messages, bufferSize)
    }

    constructor Allocate(lines: nat)
      requires lines * (BUFFER_LEN + LINE_OVERHEAD) < 0x8000_0000
      ensures Valid() && fresh(buffer) && Content() == Queue([], lines * (BUFFER_LEN + LINE_OVERHEAD)) &&
          Content().Fits()
    {
      var bytes := lines * (BUFFER_LEN + LINE_OVERHEAD);
      buffer := new Byte[bytes];
      bufferEnd := 0;
      numBuffered := 0;
      bufferSize := bytes;
      lastString := [];
      messages := [];
    }

    /** Copies bytes to the end. */
    method Put(bs: seq<Byte>)
      requires bufferEnd + |bs| <= buffer.Length
      modifies this`bufferEnd, buffer
      ensures bufferEnd == old(bufferEnd) + |bs| && buffer[..bufferEnd] == old(buffer[..bufferEnd]) + bs
    {
      var i := 0;
      while i < |bs|
        invariant i <= |bs| && bufferEnd == old(bufferEnd)
        invariant buffer[..bufferEnd] == old(buffer[..bufferEnd]) && buffer[bufferEnd..bufferEnd + i] == bs[..i]
      {
        buffer[bufferEnd + i] := bs[i];
        i := i + 1;
      }
      bufferEnd := bufferEnd + |bs|;
    }

    /** Moves what is stored from `p` on to the front. */
    method MoveDown(p: nat)
      requires p <= bufferEnd <= buffer.Length
      modifies buffer
      ensures buffer[..bufferEnd - p] == old(buffer[p..bufferEnd])
    {
      var i := 0;
      while i < bufferEnd - p
        invariant i <= bufferEnd - p
        invariant forall k :: 0 <= k < i ==> buffer[k] == old(buffer[p + k])
        invariant forall k :: i <= k < bufferEnd ==> buffer[k] == old(buffer[k])
      {
        buffer[i] := buffer[p + i];
        i := i + 1;
      }
    }

    /** Walks over the oldest messages until their bytes make up what is needed. */
    method SkipLines(spaceNeeded: int) returns (p: nat, skipped: nat, space: int)
      requires Valid()
      ensures skipped == Skips(messages, spaceNeeded) && p == Used(messages[..skipped]) <= bufferEnd
      ensures space <= 0 || p == bufferEnd
    {
      hide Bytes, Used, Line, Proper;
      ghost var q := messages;
      BytesLength(q);
      assert |buffer[..bufferEnd]| == bufferEnd;
      p, skipped, space := 0, 0, spaceNeeded;
      assert q[..0] == [] && q[0..] == q && Used([]) == 0 by { UsedOne(Message(0, 0, 0, [])); }
      while space > 0 && p < bufferEnd
        invariant skipped <= |q| && p == Used(q[..skipped]) <= bufferEnd
        invariant Skips(q, spaceNeeded) == skipped + Skips(q[skipped..], space)
        decreases |q| - skipped
      {
        SkipOne(q, skipped);
        SkipsFrom(q, skipped, space);
        var size := IntFrom(buffer[..bufferEnd], p);
        var jump := size + LINE_OVERHEAD + 1;
        p := p + jump;
        space := space - jump;
        skipped := skipped + 1;
      }
      SkipEnd(q, skipped);
    }

    /** Takes the oldest messages out, for at least that many bytes if there are as many. */
    method ShiftBufferQ(spaceNeeded: int)
      requires Valid()
      modifies this`bufferEnd, this`numBuffered, this`messages, buffer
      ensures Valid() && Content() == Dropped(old(Content()), spaceNeeded)
    {
      hide Bytes, Used, Line, Proper, Skips;
      var p, skipped, space := SkipLines(spaceNeeded);
      if p != bufferEnd && space > 0 {
        assert false;
      }
      SkipEnd(messages, skipped);
      assert buffer[p..bufferEnd] == buffer[..bufferEnd][p..];
      if p < bufferEnd { MoveDown(p); }
      bufferEnd := bufferEnd - p;
      numBuffered := numBuffered - skipped;
      messages := messages[skipped..];
      assert buffer[..bufferEnd] == Bytes(messages);
    }

    lemma EndIsUsed()
      requires Valid()
      ensures bufferEnd == Used(messages) && (messages == [] <==> bufferEnd == 0)
    {
    }

    /** Copies the fields of a line to the end, one by one. */
    method AppendLine(kind: int, player: int, msg: Text, mudtime: int)
      requires bufferEnd + Room(Message(player, kind, mudtime, msg)) <= buffer.Length
      modifies this`bufferEnd, buffer
      ensures bufferEnd == old(bufferEnd) + Room(Message(player, kind, mudtime, msg))
      ensures buffer[..bufferEnd] == old(buffer[..bufferEnd]) + Line(Message(player, kind, mudtime, msg))
    {
      hide EncodeInt, EncodeLong;
      ghost var was := buffer[..bufferEnd];
      ghost var a, b, c, d := EncodeInt(|msg|), EncodeInt(player), EncodeInt(kind), EncodeLong(mudtime);
      Put(EncodeInt(|msg|));
      Put(EncodeInt(player));
      Put(EncodeInt(kind));
      Put(EncodeLong(mudtime));
      Put(msg + [0]);
      Sixth(was, a, b, c, d, msg);
    }

    lemma Sixth(was: seq<Byte>, a: seq<Byte>, b: seq<Byte>, c: seq<Byte>, d: seq<Byte>, e: seq<Byte>)
      ensures was + a + b + c + d + (e + [0]) == was + (a + b + c + d + e + [0])
    {
    }

    /** Oldest messages go if there is not enough room behind the others. */
    method MakeRoom(room: nat, ghost m: Message)
      requires Valid() && room == Room(m)
      modifies this`bufferEnd, this`numBuffered, this`messages, buffer
      ensures Valid() && Content() == MadeRoom(old(Content()), m)
    {
      hide Bytes, Used, Skips, Dropped, Line, Valid;
      ghost var q := Content();
      EndIsUsed();
      if bufferEnd > 0 && bufferSize - bufferEnd < room {
        ShiftBufferQ(room);
        DroppedSize(q, room);
      }
    }

    /** Adds a message behind the others, if the buffer is large enough for it at all. */
    method AddToBufferQ(kind: int, player: int, msg: Text, mudtime: int)
      requires Valid() && Content().Fits() && Proper(Message(player, kind, mudtime, msg))
      modifies this, buffer
      ensures Valid() && buffer == old(buffer) && Content().Fits()
      ensures Content() == Posted(old(Content()), Message(player, kind, mudtime, msg))
      ensures lastString == if |msg| + 1 + LINE_OVERHEAD <= bufferSize then msg else old(lastString)
    {
      hide Bytes, Used, Skips, Dropped, Line, Proper, Posted;
      ghost var m := Message(player, kind, mudtime, msg);
      ghost var q := Content();
      StepKeeps(q, Post(m));
      PostedIs(q, m);
      var len := |msg|;
      var room := len + 1 + LINE_OVERHEAD;
      if room > bufferSize { return; }
      MakeRoom(room, m);
      RoomMade(q, m);
      EndIsUsed();
      ghost var kept := messages;
      AppendLine(kind, player, msg, mudtime);
      BytesAppend(kept, [m]);
      BytesOne(m);
      lastString := msg;
      numBuffered := numBuffered + 1;
      messages := kept + [m];
    }

    lemma PostedIs(q: Queue, m: Message)
      ensures Posted(q, m) == if Room(m) > q.size then q else Queue(MadeRoom(q, m).messages + [m], q.size)
    {
    }

    /** Changes the size of the buffer to that of a number of lines; the oldest messages go if it shrinks too far.
        `memory` says whether there is memory for it. */
    method ReallocateBufferQ(lines: nat, memory: bool)
      requires Valid() && Content().Fits() && 1 <= lines && BytesFor(lines) < 0x8000_0000
      modifies this, buffer
      ensures Valid() && (buffer == old(buffer) || fresh(buffer)) && Content().Fits()
      ensures Content() == Resized(old(Content()), lines, memory)
    {
      hide Bytes, Used, Skips, Dropped, Valid, Resized, BytesFor;
      ghost var q := Content();
      StepKeeps(q, Resize(lines, memory));
      ResizedIs(q, lines, memory);
      var bytes := BytesFor(lines);
      if bufferSize == bytes { return; }
      EndIsUsed();
      if bufferSize > bytes {
        if bufferEnd >= bytes {
          ShiftBufferQ(bufferEnd - bytes);
          DroppedSize(q, Used(q.messages) - bytes);
          DroppedFits(q, Used(q.messages) - bytes);
        }
      }
      EndIsUsed();
      if memory {
        Replace(bytes);
      }
    }

    lemma ResizedIs(q: Queue, lines: nat, memory: bool)
      ensures
        var bytes := BytesFor(lines);
        var q' := if q.size > bytes && Used(q.messages) >= bytes then Dropped(q, Used(q.messages) - bytes) else q;
        Resized(q, lines, memory) == if q.size == bytes then q else if memory then Queue(q'.messages, bytes) else q'
    {
    }

    /** Puts a buffer of another size in place of this one. */
    method Replace(bytes: nat)
      requires Valid() && bufferEnd <= bytes
      modifies this
      ensures Valid() && fresh(buffer) && Content() == Queue(old(messages), bytes)
    {
      hide Bytes, Proper;
      var newbuff := CopyOf(bytes);
      buffer := newbuff;
      bufferSize := bytes;
    }

    /** A buffer of another size with the same bytes as far as it goes. */
    method CopyOf(bytes: nat) returns (newbuff: array<Byte>)
      requires bufferEnd <= buffer.Length && bufferEnd <= bytes
      ensures fresh(newbuff) && newbuff.Length == bytes && newbuff[..bufferEnd] == buffer[..bufferEnd]
    {
      newbuff := new Byte[bytes];
      var i := 0;
      while i < bytes && i < buffer.Length
        invariant i <= bytes && i <= buffer.Length && newbuff[..i] == buffer[..i]
      {
        newbuff[i] := buffer[i];
        i := i + 1;
      }
      assert newbuff[..bufferEnd] == newbuff[..i][..bufferEnd] && buffer[..bufferEnd] == buffer[..i][..bufferEnd];
    }

    // ----- reading -----

    /** A place in the buffer at which the `k`th message starts, none standing for the front. */
    ghost predicate Before(p: Option<nat>, k: nat)
      reads this
    {
      k <= |messages| && ((p.None? && k == 0) || p == Some(Used(messages[..k])))
    }

    /** The next message, and the place behind it. */
    method IterBufferQ(p: Option<nat>, ghost k: nat) returns (m: Option<Message>, next: Option<nat>)
      requires Valid() && Before(p, k)
      ensures m == if k < |messages| then Some(messages[k]) else None
      ensures m.Some? ==> Before(next, k + 1)
    {
      hide Bytes, Used, Line, DecodeLong;
      EndIsUsed();
      SkipEnd(messages, k);
      if bufferEnd == 0 { return None, p; }
      if p == Some(bufferEnd) { return None, p; }
      var at := p.GetOr(0);
      assert Used(messages[..0]) == 0 by { UsedOne(Message(0, 0, 0, [])); assert messages[..0] == []; }
      assert at == Used(messages[..k]);
      BytesLength(messages);
      LineAt(messages, k);
      ghost var bs := Bytes(messages);
      LineFields(bs, messages[k], at);
      var size := IntFrom(buffer[..bufferEnd], at);
      var player := IntFrom(buffer[..bufferEnd], at + 4);
      var kind := IntFrom(buffer[..bufferEnd], at + 8);
      var timestamp := DecodeLong(buffer[..bufferEnd][at + 12..at + 20]);
      var tbuf1: seq<Byte> := buffer[..bufferEnd][at + 20..at + 20 + size];
      m := Some(Message(player, kind, timestamp, tbuf1));
      next := Some(at + 20 + size + 1);
    }

    lemma BeforeFirst()
      ensures Before(None, 0)
    {
    }

    /** The number of messages, counted in the bytes. */
    method BufferQLines() returns (lines: nat)
      requires Valid()
      ensures lines == numBuffered
    {
      hide Bytes, Used, Line, Proper, Before;
      BeforeFirst();
      lines := 0;
      var p: Option<nat> := None;
      var m;
      m, p := IterBufferQ(p, 0);
      while m.Some?
        invariant lines <= numBuffered && m == if lines < |messages| then Some(messages[lines]) else None
        invariant m.Some? ==> Before(p, lines + 1)
        decreases numBuffered - lines
      {
        lines := lines + 1;
        m, p := IterBufferQ(p, lines);
      }
    }

    // ----- runs -----

    /** A run of calls leaves the buffer standing for what the queue is meant to be, and so within its size for a
        suffix of the messages taken in. */
    method Perform(ops: seq<Op>)
      requires Valid() && Content().Fits()
      requires forall o <- ops :: if o.Post? then Proper(o.message) else 1 <= o.lines && BytesFor(o.lines) < 0x8000_0000
      modifies this, buffer
      ensures Valid() && Content() == Run(old(Content()), ops) && Content().Fits()
      ensures IsSuffix(messages, old(messages) + Accepted(old(Content()), ops)) && bufferEnd <= bufferSize
    {
      hide Bytes, Used, Step, IsSuffix;
      ghost var q := Content();
      RunKeeps(q, ops);
      var i := 0;
      while i < |ops|
        invariant i <= |ops| && Valid() && Content().Fits() && (buffer == old(buffer) || fresh(buffer))
        invariant Run(q, ops) == Run(Content(), ops[i..])
      {
        assert ops[i] in ops && ops[i..][0] == ops[i] && ops[i..][1..] == ops[i + 1..];
        ghost var was := Content();
        match ops[i] {
          case Post(m) => AddToBufferQ(m.kind, m.player, m.text, m.time);
          case Resize(lines, memory) => ReallocateBufferQ(lines, memory);
        }
        StepIs(was, ops[i]);
        i := i + 1;
      }
    }

    lemma StepIs(q: Queue, op: Op)
      ensures Step(q, op) ==
              match op
              case Post(m) => Posted(q, Message(m.player, m.kind, m.time, m.text))
              case Resize(lines, memory) => Resized(q, lines, memory)
    {
    }
  }
}
