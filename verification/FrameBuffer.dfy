/** Reassembly: whatever way a stream of messages is cut up, the same frames come out. */
module FrameBuffer {
  import opened Wrappers
  import opened Bytes
  import opened Placement
  import opened FixFrame

  datatype Peek = More | Ready(frame: Frame) | Failed(error: FixError)

  /** What `peek` says of a buffer of `n` bytes that holds `filled`. */
  function PeekAt(filled: seq<byte>, n: nat): Peek {
    match FrameAt(filled)
    case Ok(f) => Ready(f)
    case Err(e) => if e != Incomplete then Failed(e) else if |filled| == n then Failed(BodyLength) else More
  }

  class Buffer {
    const buf: array<byte>
    var len: nat

    ghost predicate Valid()
      reads this
    {
      len <= buf.Length
    }

    /** Unread stream data. */
    ghost function Filled(): seq<byte>
      reads this, buf
      requires Valid()
    {
      buf[..len]
    }

    constructor (n: nat)
      ensures Valid() && fresh(buf) && buf.Length == n && Filled() == []
    {
      buf := new byte[n](_ => 0);
      len := 0;
    }

    /** `push`: appends what fits. */
    method Push(bytes: seq<byte>) returns (n: nat)
      requires Valid()
      modifies this`len, buf
      ensures Valid() && n == (if |bytes| <= buf.Length - old(len) then |bytes| else buf.Length - old(len))
      ensures Filled() == old(Filled()) + bytes[..n]
    {
      n := if |bytes| <= buf.Length - len then |bytes| else buf.Length - len;
      var i := 0;
      while i < n
        invariant 0 <= i <= n && len == old(len)
        invariant buf[..len + i] == old(buf[..len]) + bytes[..i]
      {
        buf[len + i] := bytes[i];
        i := i + 1;
      }
      len := len + n;
    }

    /** `peek`. */
    method Peek() returns (p: Peek)
      requires Valid()
      ensures p == PeekAt(Filled(), buf.Length)
    {
      p := PeekAt(buf[..len], buf.Length);
    }

    /** `consume`: the rest is moved to the front, in place. */
    method Consume(count: nat)
      requires Valid()
      modifies this`len, buf
      ensures Valid()
      ensures Filled() == old(Filled())[if count <= old(len) then count else old(len)..]
    {
      var n := if count <= len then count else len;
      var i := 0;
      while i < len - n
        invariant 0 <= i <= len - n && len == old(len)
        invariant forall j :: 0 <= j < i ==> buf[j] == old(buf[n + j])
        invariant forall j :: i <= j < len ==> buf[j] == old(buf[j])
      {
        buf[i] := buf[i + n];
        i := i + 1;
      }
      len := len - n;
      assert buf[..len] == old(buf[..len])[n..];
    }
  }

  // ------------------------------------------------------------------------------------------------
  // The stream
  // ------------------------------------------------------------------------------------------------

  function Stream(ms: seq<Message>): seq<byte> {
    if ms == [] then [] else Render(ms[0]) + Stream(ms[1..])
  }

  function Frames(ms: seq<Message>): seq<seq<byte>> {
    if ms == [] then [] else [Render(ms[0])] + Frames(ms[1..])
  }

  function Concat(chunks: seq<seq<byte>>): seq<byte> {
    if chunks == [] then [] else chunks[0] + Concat(chunks[1..])
  }

  /** Messages the framer waits for at every cut, each no longer than the buffer. */
  predicate Receivable(ms: seq<Message>, n: nat) {
    forall i :: 0 <= i < |ms| ==> WellFormed(ms[i]) && Waitable(ms[i]) && |Render(ms[i])| <= n
  }

  lemma RenderNotEmpty(m: Message)
    requires WellFormed(m)
    ensures |Render(m)| > 0
  {
    MessageStands(Render(m), m);
  }

  /** What is buffered and what is still to come are the rest of the stream. */
  ghost predicate Holds(filled: seq<byte>, unread: seq<byte>, rest: seq<Message>, n: nat) {
    Receivable(rest, n) && filled + unread == Stream(rest)
  }

  /** The frames handed out and those still to come are all the frames. */
  ghost predicate Delivered(all: seq<Message>, frames: seq<seq<byte>>, rest: seq<Message>) {
    frames + Frames(rest) == Frames(all)
  }

  /** No message is held whole. */
  ghost predicate Waiting(filled: seq<byte>, rest: seq<Message>) {
    rest != [] ==> |filled| < |Render(rest[0])|
  }

  lemma Pushed(filled: seq<byte>, left: seq<byte>, k: nat, later: seq<byte>, rest: seq<Message>, n: nat)
    requires k <= |left| && Holds(filled, left + later, rest, n)
    ensures Holds(filled + left[..k], left[k..] + later, rest, n)
  {
    assert left == left[..k] + left[k..];
    assert (filled + left[..k]) + (left[k..] + later) == filled + (left + later);
  }

  lemma DeliveredOne(all: seq<Message>, frames: seq<seq<byte>>, rest: seq<Message>)
    requires rest != [] && Delivered(all, frames, rest)
    ensures Delivered(all, frames + [Render(rest[0])], rest[1..])
  {
    assert frames + ([Render(rest[0])] + Frames(rest[1..])) == (frames + [Render(rest[0])]) + Frames(rest[1..]);
  }

  lemma DeliveredMore(
    all: seq<Message>, frames: seq<seq<byte>>, mid: seq<Message>, more: seq<seq<byte>>, rest: seq<Message>)
    requires Delivered(all, frames, mid) && Delivered(mid, more, rest)
    ensures Delivered(all, frames + more, rest)
  {
    assert frames + (more + Frames(rest)) == (frames + more) + Frames(rest);
  }

  lemma WholeMessage(filled: seq<byte>, unread: seq<byte>, ms: seq<Message>, n: nat)
    requires Holds(filled, unread, ms, n) && ms != [] && |filled| >= |Render(ms[0])|
    ensures PeekAt(filled, n) == Ready(Frame(|Render(ms[0])|, ms[0].begin, ms[0].body))
    ensures filled[..|Render(ms[0])|] == Render(ms[0])
    ensures Holds(filled[|Render(ms[0])|..], unread, ms[1..], n)
  {
    var m, k := ms[0], |Render(ms[0])|;
    assert (filled + unread)[..k] == filled[..k] && Stream(ms)[..k] == Render(m);
    assert At(filled, 0, Render(m)) by {
      forall i | 0 <= i < k ensures Render(m)[i] == filled[0 + i] {
        assert filled[..k][i] == filled[i];
      }
    }
    FramesMessage(filled, m);
    assert (filled + unread)[k..] == filled[k..] + unread && Stream(ms)[k..] == Stream(ms[1..]);
  }

  lemma PartOfMessage(filled: seq<byte>, unread: seq<byte>, ms: seq<Message>, n: nat)
    requires Holds(filled, unread, ms, n) && n > 0 && (ms != [] ==> |filled| < |Render(ms[0])|)
    ensures PeekAt(filled, n) == More && |filled| < n
  {
    if ms != [] {
      var m, k := ms[0], |filled|;
      assert (filled + unread)[..k] == filled && Stream(ms)[..k] == Render(m)[..k];
      WaitsAtEveryCutIff(m);
    }
  }

  /** One turn of the inner loop: peek, and consume what was framed. */
  method TakeFrame(b: Buffer) returns (p: Peek, bytes: seq<byte>)
    requires b.Valid()
    modifies b`len, b.buf
    ensures b.Valid() && p == PeekAt(old(b.Filled()), b.buf.Length)
    ensures p.Ready? ==> p.frame.total <= old(b.len)
    ensures p.Ready? ==> bytes == old(b.Filled())[..p.frame.total] && b.Filled() == old(b.Filled())[p.frame.total..]
    ensures !p.Ready? ==> b.Filled() == old(b.Filled())
  {
    p := b.Peek();
    bytes := [];
    if p.Ready? {
      FramedFits(b.Filled());
      bytes := b.buf[..p.frame.total];
      b.Consume(p.frame.total);
    }
  }

  lemma FramedFits(buf: seq<byte>)
    requires FrameAt(buf).Ok?
    ensures FrameAt(buf).value.total <= |buf|
  {
  }

  /** Hands out every message the buffer holds whole. */
  method Drain(b: Buffer, ghost unread: seq<byte>, ghost ms: seq<Message>)
    returns (frames: seq<seq<byte>>, error: Option<FixError>, ghost rest: seq<Message>)
    requires b.Valid() && b.buf.Length > 0 && Holds(b.Filled(), unread, ms, b.buf.Length)
    modifies b`len, b.buf
    ensures b.Valid() && error.None? && Delivered(ms, frames, rest)
    ensures Holds(b.Filled(), unread, rest, b.buf.Length) && Waiting(b.Filled(), rest)
    ensures b.len < b.buf.Length
  {
    frames, rest := [], ms;
    assert [] + Frames(ms) == Frames(ms);
    while true
      invariant b.Valid() && Holds(b.Filled(), unread, rest, b.buf.Length) && Delivered(ms, frames, rest)
      decreases |rest|
    {
      if rest != [] && b.len >= |Render(rest[0])| {
        WholeMessage(b.Filled(), unread, rest, b.buf.Length);
        DeliveredOne(ms, frames, rest);
      } else {
        PartOfMessage(b.Filled(), unread, rest, b.buf.Length);
      }
      var p, bytes := TakeFrame(b);
      match p {
        case More =>
          return frames, None, rest;
        case Failed(e) =>
          return frames, Some(e), rest;
        case Ready(_) =>
          frames := frames + [bytes];
          rest := rest[1..];
      }
    }
  }

  /** One read: what fits is pushed and drained, until the chunk is used up. */
  method Feed(b: Buffer, chunk: seq<byte>, ghost later: seq<byte>, ghost ms: seq<Message>)
    returns (frames: seq<seq<byte>>, error: Option<FixError>, ghost rest: seq<Message>)
    requires b.Valid() && b.len < b.buf.Length
    requires Holds(b.Filled(), chunk + later, ms, b.buf.Length) && Waiting(b.Filled(), ms)
    modifies b`len, b.buf
    ensures b.Valid() && b.len < b.buf.Length && error.None? && Delivered(ms, frames, rest)
    ensures Holds(b.Filled(), later, rest, b.buf.Length) && Waiting(b.Filled(), rest)
  {
    frames, rest := [], ms;
    assert [] + Frames(ms) == Frames(ms);
    var left := chunk;
    while left != []
      invariant b.Valid() && b.len < b.buf.Length
      invariant Holds(b.Filled(), left + later, rest, b.buf.Length) && Delivered(ms, frames, rest)
      invariant Waiting(b.Filled(), rest)
      decreases |left|
    {
      ghost var before := b.Filled();
      var n := b.Push(left);
      Pushed(before, left, n, later, rest, b.buf.Length);
      var more, e, r := Drain(b, left[n..] + later, rest);
      if e.Some? {
        return frames, e, r;
      }
      DeliveredMore(ms, frames, rest, more, r);
      frames := frames + more;
      rest := r;
      left := left[n..];
    }
    assert [] + later == later;
    return frames, None, rest;
  }

  /** A stream of messages read in chunks of any sizes, empty ones among them, yields exactly those messages,
    * in order, and no error. */
  method Receive(n: nat, chunks: seq<seq<byte>>, ghost ms: seq<Message>)
    returns (frames: seq<seq<byte>>, error: Option<FixError>)
    requires n > 0 && Receivable(ms, n) && Concat(chunks) == Stream(ms)
    ensures error.None? && frames == Frames(ms)
  {
    var b := new Buffer(n);
    ghost var rest := ms;
    frames := [];
    var i := 0;
    ghost var unread := Concat(chunks[0..]);
    NothingYet(n, chunks, ms);
    while i < |chunks|
      invariant 0 <= i <= |chunks| && fresh(b) && fresh(b.buf) && b.Valid() && b.buf.Length == n && b.len < n
      invariant unread == Concat(chunks[i..]) && Holds(b.Filled(), unread, rest, n) && Delivered(ms, frames, rest)
      invariant Waiting(b.Filled(), rest)
    {
      ConcatNext(chunks, i);
      unread := Concat(chunks[i + 1..]);
      var more, e, r := Feed(b, chunks[i], unread, rest);
      if e.Some? {
        return frames, e;
      }
      DeliveredMore(ms, frames, rest, more, r);
      frames := frames + more;
      rest := r;
      i := i + 1;
    }
    AllDelivered(b.Filled(), ms, frames, rest, n);
    return frames, None;
  }

  lemma NothingYet(n: nat, chunks: seq<seq<byte>>, ms: seq<Message>)
    requires Receivable(ms, n) && Concat(chunks) == Stream(ms)
    ensures Holds([], Concat(chunks[0..]), ms, n) && Delivered(ms, [], ms) && Waiting([], ms)
  {
    assert chunks[0..] == chunks;
    assert [] + Concat(chunks) == Concat(chunks);
    assert [] + Frames(ms) == Frames(ms);
    if ms != [] {
      RenderNotEmpty(ms[0]);
    }
  }

  lemma ConcatNext(chunks: seq<seq<byte>>, i: nat)
    requires i < |chunks|
    ensures Concat(chunks[i..]) == chunks[i] + Concat(chunks[i + 1..])
  {
    assert chunks[i..][1..] == chunks[i + 1..];
  }

  lemma AllDelivered(filled: seq<byte>, ms: seq<Message>, frames: seq<seq<byte>>, rest: seq<Message>, n: nat)
    requires Holds(filled, [], rest, n) && Waiting(filled, rest) && Delivered(ms, frames, rest)
    ensures frames == Frames(ms)
  {
    NothingLeft(filled, rest, n);
    assert rest == [] && frames + [] == frames;
  }

  /** At the end of the stream a whole message would have been handed out. */
  lemma NothingLeft(filled: seq<byte>, rest: seq<Message>, n: nat)
    requires Holds(filled, [], rest, n)
    ensures rest != [] ==> |filled| >= |Render(rest[0])|
  {
    if rest != [] {
      RenderNotEmpty(rest[0]);
      assert filled + [] == filled;
    }
  }
}
