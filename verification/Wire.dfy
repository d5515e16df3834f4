/** Events on the wire: the kind-dependent encoding into a byte stream, the reading of it back, and
    the copying of event buffers on the way to the receiving thread. */
module Wire {

  type Byte = x: int | 0 <= x < 256

  // the kinds that carry more than the kind and the thread id
  const INVALID_EVENT_KIND: nat := 0
  const MEM_WRITE: nat := 3
  const MEM_READ: nat := 4
  const FUNC_CALL: nat := 5
  const FUNC_ENTER: nat := 6
  const FUNC_RETURN: nat := 7
  const AT_PC: nat := 12
  const ADDRESS_OF_SYMBOL: nat := 16

  const INVALID_THREADID: int := -1
  const STR_SIZE: nat := 64

  /** The contents of an event buffer, the pointers to source locations aside. */
  datatype Event = Event(
    kind: nat, threadid: int, addr: nat, addrTarget: nat, size: nat, direct: nat,
    arg0: nat, arg1: nat, retval: nat, pc: int, str: seq<Byte>)

  function Cleared(): Event {
    Event(INVALID_EVENT_KIND, INVALID_THREADID, 0, 0, 0, 1, 0, 0, 0, 0, seq(STR_SIZE, i => 0))
  }

  // ---------------------------------------------------------------- machine integers

  function Pow256(w: nat): nat {
    if w == 0 then 1 else 256 * Pow256(w - 1)
  }

  /** The w bytes of a number, least significant first. */
  function Bytes(n: nat, w: nat): (b: seq<Byte>)
    ensures |b| == w
  {
    if w == 0 then [] else [n % 256] + Bytes(n / 256, w - 1)
  }

  function Number(b: seq<Byte>): nat {
    if b == [] then 0 else b[0] + 256 * Number(b[1..])
  }

  lemma {:induction false} NumberOfBytes(n: nat, w: nat)
    requires n < Pow256(w)
    ensures Number(Bytes(n, w)) == n
  {
    if w > 0 {
      NumberOfBytes(n / 256, w - 1);
      assert Bytes(n, w)[1..] == Bytes(n / 256, w - 1);
    }
  }

  /** A signed number of 32 bits as an unsigned one, and back. */
  function Unsigned(x: int): nat
    requires -0x8000_0000 <= x < 0x8000_0000
  {
    if x < 0 then x + 0x1_0000_0000 else x
  }

  function Signed(n: nat): int {
    if n >= 0x8000_0000 then n - 0x1_0000_0000 else n
  }

  /** The fields have the widths of their types. */
  ghost predicate Fits(e: Event) {
    && e.kind < Pow256(4) && -0x8000_0000 <= e.threadid < 0x8000_0000
    && e.addr < Pow256(8) && e.addrTarget < Pow256(8) && e.size < Pow256(4) && e.direct < Pow256(4)
    && e.arg0 < Pow256(8) && e.arg1 < Pow256(8) && e.retval < Pow256(8)
    && -0x8000_0000 <= e.pc < 0x8000_0000 && |e.str| == STR_SIZE
  }

  /** What may be sent. */
  predicate Check(e: Event) {
    e.kind != INVALID_EVENT_KIND && e.threadid != INVALID_THREADID
  }

  // ---------------------------------------------------------------- the encoding

  function Encode(e: Event): seq<Byte>
    requires Fits(e)
  {
    Bytes(e.kind, 4) + (Bytes(Unsigned(e.threadid), 4) + EncodeBody(e))
  }

  function EncodeBody(e: Event): seq<Byte>
    requires Fits(e)
  {
    if e.kind == MEM_READ || e.kind == MEM_WRITE then Bytes(e.addr, 8) + Bytes(e.size, 4)
    else if e.kind == FUNC_ENTER then Bytes(e.addr, 8) + (Bytes(e.arg0, 8) + Bytes(e.arg1, 8))
    else if e.kind == FUNC_RETURN then Bytes(e.addr, 8) + Bytes(e.retval, 8)
    else if e.kind == FUNC_CALL then
      Bytes(e.addr, 8) + (Bytes(e.addrTarget, 8) + (Bytes(e.arg0, 8) + Bytes(e.arg1, 8)))
    else if e.kind == AT_PC then Bytes(Unsigned(e.pc), 4)
    else if e.kind == ADDRESS_OF_SYMBOL then Bytes(e.addr, 8) + e.str
    else []
  }

  /** What arrives: the fields that events of the kind transmit, in a cleared buffer. */
  function Transmitted(e: Event): Event {
    var c := Cleared().(kind := e.kind, threadid := e.threadid);
    if e.kind == MEM_READ || e.kind == MEM_WRITE then c.(addr := e.addr, size := e.size)
    else if e.kind == FUNC_ENTER then c.(addr := e.addr, arg0 := e.arg0, arg1 := e.arg1)
    else if e.kind == FUNC_RETURN then c.(addr := e.addr, retval := e.retval)
    else if e.kind == FUNC_CALL then
      c.(addr := e.addr, addrTarget := e.addrTarget, arg0 := e.arg0, arg1 := e.arg1)
    else if e.kind == AT_PC then c.(pc := e.pc)
    else if e.kind == ADDRESS_OF_SYMBOL then c.(addr := e.addr, str := e.str)
    else c
  }

  datatype Parsed<T> = Got(value: T, rest: seq<Byte>) | Short {
    predicate IsFailure() { Short? }
    function PropagateFailure<U>(): Parsed<U> requires Short? { Short }
    function Extract(): (T, seq<Byte>) requires Got? { (value, rest) }
  }

  function TakeBytes(b: seq<Byte>, w: nat): Parsed<seq<Byte>> {
    if |b| < w then Short else Got(b[..w], b[w..])
  }

  function Take(b: seq<Byte>, w: nat): Parsed<nat> {
    if |b| < w then Short else Got(Number(b[..w]), b[w..])
  }

  function Decode(b: seq<Byte>): Parsed<Event> {
    var (kind, b1) :- Take(b, 4);
    var (threadid, b2) :- Take(b1, 4);
    DecodeBody(Cleared().(kind := kind, threadid := Signed(threadid)), b2)
  }

  function DecodeBody(c: Event, b: seq<Byte>): Parsed<Event> {
    if c.kind == MEM_READ || c.kind == MEM_WRITE then
      var (addr, b1) :- Take(b, 8);
      var (size, b2) :- Take(b1, 4);
      Got(c.(addr := addr, size := size), b2)
    else if c.kind == FUNC_ENTER then
      var (addr, b1) :- Take(b, 8);
      var (arg0, b2) :- Take(b1, 8);
      var (arg1, b3) :- Take(b2, 8);
      Got(c.(addr := addr, arg0 := arg0, arg1 := arg1), b3)
    else if c.kind == FUNC_RETURN then
      var (addr, b1) :- Take(b, 8);
      var (retval, b2) :- Take(b1, 8);
      Got(c.(addr := addr, retval := retval), b2)
    else if c.kind == FUNC_CALL then
      var (addr, b1) :- Take(b, 8);
      var (target, b2) :- Take(b1, 8);
      var (arg0, b3) :- Take(b2, 8);
      var (arg1, b4) :- Take(b3, 8);
      Got(c.(addr := addr, addrTarget := target, arg0 := arg0, arg1 := arg1), b4)
    else if c.kind == AT_PC then
      var (pc, b1) :- Take(b, 4);
      Got(c.(pc := Signed(pc)), b1)
    else if c.kind == ADDRESS_OF_SYMBOL then
      var (addr, b1) :- Take(b, 8);
      var (str, b2) :- TakeBytes(b1, STR_SIZE);
      Got(c.(addr := addr, str := str), b2)
    else Got(c, b)
  }

  lemma Regroup(a: seq<Byte>, b: seq<Byte>, c: seq<Byte>)
    ensures (a + b) + c == a + (b + c)
  {
  }

  lemma Halves(a: seq<Byte>, b: seq<Byte>)
    ensures (a + b)[..|a|] == a && (a + b)[|a|..] == b
  {
  }

  lemma {:induction false} TakeFirst(n: nat, w: nat, rest: seq<Byte>)
    requires n < Pow256(w)
    ensures Take(Bytes(n, w) + rest, w) == Got(n, rest)
  {
    NumberOfBytes(n, w);
    Halves(Bytes(n, w), rest);
  }

  lemma {:induction false} TakeOne(n: nat, w: nat, more: seq<Byte>, rest: seq<Byte>)
    requires n < Pow256(w)
    ensures Take((Bytes(n, w) + more) + rest, w) == Got(n, more + rest)
    ensures Take(Bytes(n, w) + rest, w) == Got(n, rest)
  {
    Regroup(Bytes(n, w), more, rest);
    TakeFirst(n, w, more + rest);
    TakeFirst(n, w, rest);
  }

  lemma Widths()
    ensures Pow256(4) == 0x1_0000_0000
  {
    assert Pow256(1) == 256 && Pow256(2) == 0x1_0000 && Pow256(3) == 0x100_0000;
  }

  lemma BodyRoundTrip(e: Event, c: Event, rest: seq<Byte>)
    requires Fits(e) && c == Cleared().(kind := e.kind, threadid := e.threadid)
    ensures DecodeBody(c, EncodeBody(e) + rest) == Got(Transmitted(e), rest)
  {
    Widths();
    if e.kind == MEM_READ || e.kind == MEM_WRITE {
      TakeOne(e.addr, 8, Bytes(e.size, 4), rest);
      TakeOne(e.size, 4, [], rest);
    } else if e.kind == FUNC_ENTER {
      TakeOne(e.addr, 8, Bytes(e.arg0, 8) + Bytes(e.arg1, 8), rest);
      TakeOne(e.arg0, 8, Bytes(e.arg1, 8), rest);
      TakeOne(e.arg1, 8, [], rest);
    } else if e.kind == FUNC_RETURN {
      TakeOne(e.addr, 8, Bytes(e.retval, 8), rest);
      TakeOne(e.retval, 8, [], rest);
    } else if e.kind == FUNC_CALL {
      TakeOne(e.addr, 8, Bytes(e.addrTarget, 8) + (Bytes(e.arg0, 8) + Bytes(e.arg1, 8)), rest);
      TakeOne(e.addrTarget, 8, Bytes(e.arg0, 8) + Bytes(e.arg1, 8), rest);
      TakeOne(e.arg0, 8, Bytes(e.arg1, 8), rest);
      TakeOne(e.arg1, 8, [], rest);
    } else if e.kind == AT_PC {
      TakeOne(Unsigned(e.pc), 4, [], rest);
    } else if e.kind == ADDRESS_OF_SYMBOL {
      TakeOne(e.addr, 8, e.str, rest);
      assert (e.str + rest)[..STR_SIZE] == e.str && (e.str + rest)[STR_SIZE..] == rest;
    } else {
      assert [] + rest == rest;
    }
  }

  /** Decoding what an event was encoded to returns its transmitted fields, and leaves exactly what
      came after it. */
  lemma RoundTrip(e: Event, rest: seq<Byte>)
    requires Fits(e)
    ensures Decode(Encode(e) + rest) == Got(Transmitted(e), rest)
  {
    Widths();
    var body := EncodeBody(e);
    TakeOne(e.kind, 4, Bytes(Unsigned(e.threadid), 4) + body, rest);
    TakeOne(Unsigned(e.threadid), 4, body, rest);
    BodyRoundTrip(e, Cleared().(kind := e.kind, threadid := e.threadid), rest);
  }

  /** The encoding is self-delimiting: a stream begins with at most one event. */
  lemma SelfDelimiting(e: Event, f: Event, rest: seq<Byte>, rest': seq<Byte>)
    requires Fits(e) && Fits(f) && Encode(e) + rest == Encode(f) + rest'
    ensures Transmitted(e) == Transmitted(f) && rest == rest'
  {
    RoundTrip(e, rest);
    RoundTrip(f, rest');
  }

  /** What arrives, field by field and by the numbers of the kinds; a field that events of the kind do not
      carry is that of a cleared buffer.  Two numbers of 32 bits come first, then addresses and arguments
      of 64 bits, sizes and places of 32, and strings of 64 bytes. */
  lemma ArrivesByKind(e: Event, rest: seq<Byte>)
    requires Fits(e)
    ensures Decode(Encode(e) + rest).Got?
    ensures var a, k := Decode(Encode(e) + rest).value, e.kind;
            && a.kind == k && a.threadid == e.threadid && a.direct == 1
            && a.addr == (if k in {3, 4, 5, 6, 7, 16} then e.addr else 0)
            && a.size == (if k in {3, 4} then e.size else 0)
            && a.addrTarget == (if k == 5 then e.addrTarget else 0)
            && a.arg0 == (if k in {5, 6} then e.arg0 else 0) && a.arg1 == (if k in {5, 6} then e.arg1 else 0)
            && a.retval == (if k == 7 then e.retval else 0)
            && a.pc == (if k == 12 then e.pc else 0)
            && a.str == (if k == 16 then e.str else seq(64, i => 0))
    ensures var k := e.kind;
            |Encode(e)| == 4 + 4 + (if k in {3, 4, 5, 6, 7, 16} then 8 else 0) + (if k in {3, 4} then 4 else 0)
                           + (if k == 5 then 8 else 0) + (if k in {5, 6} then 16 else 0)
                           + (if k == 7 then 8 else 0) + (if k == 12 then 4 else 0) + (if k == 16 then 64 else 0)
  {
    RoundTrip(e, rest);
  }

  /** Number v of w bytes is in the stream at this place. */
  ghost predicate HasAt(b: seq<Byte>, at: nat, v: seq<Byte>) {
    at + |v| <= |b| && b[at..at + |v|] == v
  }

  lemma InFront(front: seq<Byte>, b: seq<Byte>, at: nat, v: seq<Byte>)
    requires HasAt(b, at, v)
    ensures HasAt(front + b, |front| + at, v)
  {
    assert (front + b)[|front| + at..|front| + at + |v|] == b[at..at + |v|];
  }

  lemma Second(v: seq<Byte>, w: seq<Byte>)
    ensures HasAt(v + w, 0, v) && HasAt(v + w, |v|, w)
  {
  }

  /** The fields after kind and thread, in their order. */
  lemma BodyLayout(e: Event)
    requires Fits(e)
    ensures var b, k := EncodeBody(e), e.kind;
            && (k in {3, 4, 5, 6, 7, 16} ==> HasAt(b, 0, Bytes(e.addr, 8)))
            && (k in {3, 4} ==> HasAt(b, 8, Bytes(e.size, 4)))
            && (k == 5 ==> HasAt(b, 8, Bytes(e.addrTarget, 8)) && HasAt(b, 16, Bytes(e.arg0, 8))
                           && HasAt(b, 24, Bytes(e.arg1, 8)))
            && (k == 6 ==> HasAt(b, 8, Bytes(e.arg0, 8)) && HasAt(b, 16, Bytes(e.arg1, 8)))
            && (k == 7 ==> HasAt(b, 8, Bytes(e.retval, 8)))
            && (k == 12 ==> HasAt(b, 0, Bytes(Unsigned(e.pc), 4)))
            && (k == 16 ==> HasAt(b, 8, e.str))
  {
    hide HasAt, Bytes, Pow256;
    var addr, args := Bytes(e.addr, 8), Bytes(e.arg0, 8) + Bytes(e.arg1, 8);
    Second(Bytes(e.arg0, 8), Bytes(e.arg1, 8));
    if e.kind == 5 {
      var rest := Bytes(e.addrTarget, 8) + args;
      Second(Bytes(e.addrTarget, 8), args);
      Second(addr, rest);
      InFront(Bytes(e.addrTarget, 8), args, 0, Bytes(e.arg0, 8));
      InFront(Bytes(e.addrTarget, 8), args, 8, Bytes(e.arg1, 8));
      InFront(addr, rest, 0, Bytes(e.addrTarget, 8));
      InFront(addr, rest, 8, Bytes(e.arg0, 8));
      InFront(addr, rest, 16, Bytes(e.arg1, 8));
    } else if e.kind == 6 {
      Second(addr, args);
      InFront(addr, args, 0, Bytes(e.arg0, 8));
      InFront(addr, args, 8, Bytes(e.arg1, 8));
    } else if e.kind == 12 {
      Second(Bytes(Unsigned(e.pc), 4), []);
      assert Bytes(Unsigned(e.pc), 4) + [] == Bytes(Unsigned(e.pc), 4);
    } else {
      Second(addr, Bytes(e.size, 4));
      Second(addr, Bytes(e.retval, 8));
      Second(addr, e.str);
    }
  }

  /** The order of the fields on the wire: kind, thread, and then those of the body. */
  lemma Layout(e: Event, at: nat, v: seq<Byte>)
    requires Fits(e)
    ensures HasAt(Encode(e), 0, Bytes(e.kind, 4)) && HasAt(Encode(e), 4, Bytes(Unsigned(e.threadid), 4))
    ensures HasAt(EncodeBody(e), at, v) ==> HasAt(Encode(e), 8 + at, v)
  {
    hide EncodeBody, Bytes, HasAt;
    var kind, thread, body := Bytes(e.kind, 4), Bytes(Unsigned(e.threadid), 4), EncodeBody(e);
    Second(kind, thread + body);
    Second(thread, body);
    InFront(kind, thread + body, 0, thread);
    if HasAt(body, at, v) {
      InFront(thread, body, at, v);
      InFront(kind, thread + body, 4 + at, v);
    }
  }

  // ---------------------------------------------------------------- streams

  ghost predicate AllFit(es: seq<Event>) {
    forall i :: 0 <= i < |es| ==> Fits(es[i])
  }

  function EncodeAll(es: seq<Event>): seq<Byte>
    requires AllFit(es)
  {
    if es == [] then [] else Encode(es[0]) + EncodeAll(es[1..])
  }

  function DecodeAll(b: seq<Byte>, n: nat): Parsed<seq<Event>> {
    if n == 0 then Got([], b)
    else
      var (e, b1) :- Decode(b);
      var (es, b2) :- DecodeAll(b1, n - 1);
      Got([e] + es, b2)
  }

  function AllTransmitted(es: seq<Event>): seq<Event> {
    seq(|es|, i requires 0 <= i < |es| => Transmitted(es[i]))
  }

  lemma DecodeAllStep(b: seq<Byte>, n: nat, e: Event, b1: seq<Byte>, es: seq<Event>, rest: seq<Byte>)
    requires Decode(b) == Got(e, b1) && DecodeAll(b1, n) == Got(es, rest)
    ensures DecodeAll(b, n + 1) == Got([e] + es, rest)
  {
  }

  /** Any sequence of events comes back as the same sequence, on every transmitted field. */
  lemma {:induction false} StreamRoundTrip(es: seq<Event>, rest: seq<Byte>)
    requires AllFit(es)
    ensures DecodeAll(EncodeAll(es) + rest, |es|) == Got(AllTransmitted(es), rest)
  {
    hide Encode, Transmitted, Decode;
    if es == [] {
      assert EncodeAll(es) + rest == rest && AllTransmitted(es) == [];
    } else {
      var first := Encode(es[0]);
      assert (first + EncodeAll(es[1..])) + rest == first + (EncodeAll(es[1..]) + rest);
      RoundTrip(es[0], EncodeAll(es[1..]) + rest);
      StreamRoundTrip(es[1..], rest);
      DecodeAllStep(EncodeAll(es) + rest, |es| - 1, Transmitted(es[0]), EncodeAll(es[1..]) + rest,
                    AllTransmitted(es[1..]), rest);
      assert AllTransmitted(es) == [Transmitted(es[0])] + AllTransmitted(es[1..]);
    }
  }

  // ---------------------------------------------------------------- copying

  /** Assigning one event buffer to another copies only what events of the kind carry; the other
      fields of the target keep their old contents. */
  function Copied(dst: Event, src: Event): Event {
    var c := dst.(kind := src.kind, threadid := src.threadid);
    if src.kind == MEM_READ || src.kind == MEM_WRITE then c.(addr := src.addr, size := src.size)
    else if src.kind == FUNC_ENTER then c.(addr := src.addr, arg0 := src.arg0, arg1 := src.arg1)
    else if src.kind == FUNC_RETURN then c.(addr := src.addr, retval := src.retval)
    else if src.kind == FUNC_CALL then
      c.(addr := src.addr, addrTarget := src.addrTarget, direct := src.direct, arg0 := src.arg0, arg1 := src.arg1)
    else if src.kind == AT_PC then c.(pc := src.pc)
    else if src.kind == ADDRESS_OF_SYMBOL then c.(addr := src.addr, str := src.str)
    else c
  }

  /** What assignment copies, field by field and by the numbers of the kinds; the rest is what it was. */
  lemma CopiedByKind(dst: Event, src: Event)
    ensures var a, k := Copied(dst, src), src.kind;
            && a.kind == k && a.threadid == src.threadid
            && a.addr == (if k in {3, 4, 5, 6, 7, 16} then src.addr else dst.addr)
            && a.size == (if k in {3, 4} then src.size else dst.size)
            && a.addrTarget == (if k == 5 then src.addrTarget else dst.addrTarget)
            && a.direct == (if k == 5 then src.direct else dst.direct)
            && a.arg0 == (if k in {5, 6} then src.arg0 else dst.arg0)
            && a.arg1 == (if k in {5, 6} then src.arg1 else dst.arg1)
            && a.retval == (if k == 7 then src.retval else dst.retval)
            && a.pc == (if k == 12 then src.pc else dst.pc)
            && a.str == (if k == 16 then src.str else dst.str)
  {
  }

  /** A received event keeps its transmitted fields when it is copied into the slot of a shadow
      thread and from there to the receiver, whatever was in the two buffers before. */
  lemma CopiesKeepEvent(e: Event, rest: seq<Byte>, slot: Event, target: Event)
    requires Fits(e)
    ensures var received := Decode(Encode(e) + rest);
            received.Got? && Transmitted(Copied(target, Copied(slot, received.value))) == Transmitted(e)
  {
    RoundTrip(e, rest);
  }

  // ---------------------------------------------------------------- buffers and pipes

  class EventBuffer {
    var kind: nat
    var threadid: int
    var addr: nat
    var addrTarget: nat
    var size: nat
    var direct: nat
    var arg0: nat
    var arg1: nat
    var retval: nat
    var pc: int
    var str: seq<Byte>

    function Contents(): Event
      reads this
    {
      Event(kind, threadid, addr, addrTarget, size, direct, arg0, arg1, retval, pc, str)
    }

    constructor (e: Event)
      ensures Contents() == e
    {
      kind, threadid, addr, addrTarget, size, direct := e.kind, e.threadid, e.addr, e.addrTarget, e.size, e.direct;
      arg0, arg1, retval, pc, str := e.arg0, e.arg1, e.retval, e.pc, e.str;
    }

    method Clear()
      modifies this
      ensures Contents() == Cleared()
    {
      kind, threadid := INVALID_EVENT_KIND, INVALID_THREADID;
      addr, addrTarget, size, direct := 0, 0, 0, 1;
      arg0, arg1, retval, pc := 0, 0, 0, 0;
      str := seq(STR_SIZE, i => 0);
    }

    method Assign(e: EventBuffer)
      modifies this
      ensures Contents() == Copied(old(Contents()), old(e.Contents()))
    {
      if this != e {
        kind, threadid := e.kind, e.threadid;
        if e.kind == MEM_READ || e.kind == MEM_WRITE {
          addr, size := e.addr, e.size;
        } else if e.kind == FUNC_ENTER {
          addr, arg0, arg1 := e.addr, e.arg0, e.arg1;
        } else if e.kind == FUNC_RETURN {
          addr, retval := e.addr, e.retval;
        } else if e.kind == FUNC_CALL {
          addr, addrTarget, direct, arg0, arg1 := e.addr, e.addrTarget, e.direct, e.arg0, e.arg1;
        } else if e.kind == AT_PC {
          pc := e.pc;
        } else if e.kind == ADDRESS_OF_SYMBOL {
          addr, str := e.addr, e.str;
        }
      }
    }
  }

  /** A named pipe: the system may take or give any part of what is asked for at a time. */
  class Fifo {
    var bytes: seq<Byte>

    constructor ()
      ensures bytes == []
    {
      bytes := [];
    }

    method Write(buff: seq<Byte>)
      modifies this
      ensures bytes == old(bytes) + buff
    {
      var offset := 0;
      while offset < |buff|
        invariant 0 <= offset <= |buff|
        invariant bytes == old(bytes) + buff[..offset]
      {
        var sz :| 1 <= sz <= |buff| - offset;
        bytes := bytes + buff[offset..offset + sz];
        offset := offset + sz;
      }
    }

    method WriteTwo(m: nat, v: nat, n: nat, w: nat)
      modifies this
      ensures bytes == old(bytes) + (Bytes(m, v) + Bytes(n, w))
    {
      Write(Bytes(m, v));
      Write(Bytes(n, w));
      Regroup(old(bytes), Bytes(m, v), Bytes(n, w));
    }

    /** The reader blocks until all the bytes it wants have come. */
    method Read(size: nat) returns (buff: seq<Byte>)
      requires size <= |bytes|
      modifies this
      ensures buff == old(bytes)[..size] && bytes == old(bytes)[size..]
    {
      buff := [];
      while |buff| < size
        invariant |buff| <= size && buff == old(bytes)[..|buff|] && bytes == old(bytes)[|buff|..]
        decreases size - |buff|
      {
        var sz :| 1 <= sz <= size - |buff|;
        buff, bytes := buff + bytes[..sz], bytes[sz..];
      }
    }

    method ReadNumber(w: nat) returns (n: nat)
      requires Take(bytes, w).Got?
      modifies this
      ensures Got(n, bytes) == Take(old(bytes), w)
    {
      var b := Read(w);
      n := Number(b);
    }
  }

  class EventPipe {
    const fifo: Fifo

    constructor (fifo: Fifo)
      ensures this.fifo == fifo
    {
      this.fifo := fifo;
    }

    method Send(event: EventBuffer)
      requires Check(event.Contents()) && Fits(event.Contents())
      modifies fifo, event
      ensures fifo.bytes == old(fifo.bytes) + old(Encode(event.Contents()))
      ensures event.Contents() == Cleared()
    {
      ghost var before, body := fifo.bytes, EncodeBody(event.Contents());
      fifo.Write(Bytes(event.kind, 4));
      fifo.Write(Bytes(Unsigned(event.threadid), 4));
      SendBody(event);
      Regroup(before + Bytes(event.kind, 4), Bytes(Unsigned(event.threadid), 4), body);
      Regroup(before, Bytes(event.kind, 4), Bytes(Unsigned(event.threadid), 4) + body);
      event.Clear();
    }

    method SendBody(event: EventBuffer)
      requires Fits(event.Contents())
      modifies fifo
      ensures fifo.bytes == old(fifo.bytes) + EncodeBody(event.Contents())
    {
      if event.kind == MEM_READ || event.kind == MEM_WRITE {
        fifo.WriteTwo(event.addr, 8, event.size, 4);
      } else if event.kind == FUNC_ENTER {
        SendFuncEnter(event);
      } else if event.kind == FUNC_RETURN {
        fifo.WriteTwo(event.addr, 8, event.retval, 8);
      } else if event.kind == FUNC_CALL {
        SendFuncCall(event);
      } else if event.kind == AT_PC {
        fifo.Write(Bytes(Unsigned(event.pc), 4));
      } else if event.kind == ADDRESS_OF_SYMBOL {
        fifo.Write(Bytes(event.addr, 8));
        fifo.Write(event.str);
        Regroup(old(fifo.bytes), Bytes(event.addr, 8), event.str);
      }
    }

    method SendFuncEnter(event: EventBuffer)
      modifies fifo
      ensures fifo.bytes == old(fifo.bytes) + (Bytes(event.addr, 8) + (Bytes(event.arg0, 8) + Bytes(event.arg1, 8)))
    {
      fifo.Write(Bytes(event.addr, 8));
      fifo.WriteTwo(event.arg0, 8, event.arg1, 8);
      Regroup(old(fifo.bytes), Bytes(event.addr, 8), Bytes(event.arg0, 8) + Bytes(event.arg1, 8));
    }

    method SendFuncCall(event: EventBuffer)
      modifies fifo
      ensures fifo.bytes == old(fifo.bytes) +
                (Bytes(event.addr, 8) + (Bytes(event.addrTarget, 8) + (Bytes(event.arg0, 8) + Bytes(event.arg1, 8))))
    {
      fifo.WriteTwo(event.addr, 8, event.addrTarget, 8);
      fifo.WriteTwo(event.arg0, 8, event.arg1, 8);
      ghost var target, args := Bytes(event.addrTarget, 8), Bytes(event.arg0, 8) + Bytes(event.arg1, 8);
      Regroup(old(fifo.bytes), Bytes(event.addr, 8) + target, args);
      Regroup(Bytes(event.addr, 8), target, args);
    }

    method Recv(event: EventBuffer)
      requires Decode(fifo.bytes).Got? && Check(Decode(fifo.bytes).value)
      modifies fifo, event
      ensures Got(event.Contents(), fifo.bytes) == Decode(old(fifo.bytes))
    {
      event.Clear();
      event.kind := fifo.ReadNumber(4);
      var n := fifo.ReadNumber(4);
      event.threadid := Signed(n);
      RecvBody(event);
      assert Check(event.Contents());
    }

    method RecvBody(event: EventBuffer)
      requires DecodeBody(event.Contents(), fifo.bytes).Got?
      modifies fifo, event
      ensures Got(event.Contents(), fifo.bytes) == DecodeBody(old(event.Contents()), old(fifo.bytes))
    {
      if event.kind == MEM_READ || event.kind == MEM_WRITE {
        event.addr := fifo.ReadNumber(8);
        event.size := fifo.ReadNumber(4);
      } else if event.kind == FUNC_ENTER {
        event.addr := fifo.ReadNumber(8);
        event.arg0 := fifo.ReadNumber(8);
        event.arg1 := fifo.ReadNumber(8);
      } else if event.kind == FUNC_RETURN {
        event.addr := fifo.ReadNumber(8);
        event.retval := fifo.ReadNumber(8);
      } else if event.kind == FUNC_CALL {
        event.addr := fifo.ReadNumber(8);
        event.addrTarget := fifo.ReadNumber(8);
        event.arg0 := fifo.ReadNumber(8);
        event.arg1 := fifo.ReadNumber(8);
      } else if event.kind == AT_PC {
        var n := fifo.ReadNumber(4);
        event.pc := Signed(n);
      } else if event.kind == ADDRESS_OF_SYMBOL {
        event.addr := fifo.ReadNumber(8);
        event.str := fifo.Read(STR_SIZE);
      }
    }
  }

  method SendAll(pipe: EventPipe, es: seq<Event>)
    requires AllFit(es) && forall i :: 0 <= i < |es| ==> Check(es[i])
    modifies pipe.fifo
    ensures pipe.fifo.bytes == old(pipe.fifo.bytes) + EncodeAll(es)
  {
    if es != [] {
      var event := new EventBuffer(es[0]);
      pipe.Send(event);
      SendAll(pipe, es[1..]);
      Regroup(old(pipe.fifo.bytes), Encode(es[0]), EncodeAll(es[1..]));
    } else {
      assert pipe.fifo.bytes + [] == pipe.fifo.bytes;
    }
  }

  lemma TransmittedChecked(es: seq<Event>)
    requires forall i :: 0 <= i < |es| ==> Check(es[i])
    ensures forall e :: e in AllTransmitted(es) ==> Check(e)
  {
    forall i | 0 <= i < |es| ensures Check(AllTransmitted(es)[i]) {
      assert Check(es[i]);
    }
  }

  method RecvAll(pipe: EventPipe, n: nat) returns (got: seq<Event>)
    requires DecodeAll(pipe.fifo.bytes, n).Got?
    requires forall e :: e in DecodeAll(pipe.fifo.bytes, n).value ==> Check(e)
    modifies pipe.fifo
    ensures Got(got, pipe.fifo.bytes) == DecodeAll(old(pipe.fifo.bytes), n)
  {
    got := [];
    if n > 0 {
      var event := new EventBuffer(Cleared());
      pipe.Recv(event);
      var more := RecvAll(pipe, n - 1);
      got := [event.Contents()] + more;
    }
  }

  /** Everything that is sent through a pipe is received, in order, on every transmitted field. */
  method SendAndReceive(es: seq<Event>) returns (got: seq<Event>)
    requires AllFit(es) && forall i :: 0 <= i < |es| ==> Check(es[i])
    ensures got == AllTransmitted(es)
  {
    var fifo := new Fifo();
    var pipe := new EventPipe(fifo);
    SendAll(pipe, es);
    assert fifo.bytes == EncodeAll(es) + [];
    StreamRoundTrip(es, []);
    TransmittedChecked(es);
    got := RecvAll(pipe, |es|);
  }
}
