/** The circular buffer of xbee_cbuf.c: bytes are written at tail and read at head, indices are
    masked, one cell separates full from empty. */
module CircularBuffer {
  import opened Arith
  import opened Bits
  import opened Sequences
  import opened Platform

  type Byte = x: int | 0 <= x < 256

  datatype Option<T> = None | Some(value: T)

  /** Unsigned arithmetic followed by & mask. */
  function Masked(x: int, mask: nat): nat
  {
    And(x % T32, mask)
  }

  function Min(a: nat, b: nat): nat { if a < b then a else b }

  /** Index of the i-th byte after h in a ring of the given size. */
  function Pos(h: nat, i: nat, size: nat): nat
  {
    if h + i >= size then h + i - size else h + i
  }

  /** data holds the mask + 1 bytes of the buffer and, at index mask + 1, the byte that follows
      it in memory. head <= mask + 1: a get can leave head one past the last index. */
  datatype Ring = Ring(head: nat, tail: nat, mask: nat, data: seq<Byte>)
  {
    predicate Valid()
    {
      && 3 <= mask && mask + 1 < T32 && IsPow2(mask + 1)
      && |data| == mask + 2
      && head <= mask + 1 && tail <= mask
    }

    function Size(): nat { mask + 1 }

    /** Bytes buffered. */
    function Used(): nat
      requires Valid()
    {
      if tail >= head then tail - head else tail + Size() - head
    }

    /** The index after i. */
    function Next(i: nat): nat
      requires i <= mask + 1 && 3 <= mask
    {
      if i == mask + 1 then 1 else if i == mask then 0 else i + 1
    }

    /** The buffered bytes, oldest first. */
    function Contents(): (c: seq<Byte>)
      requires Valid()
      ensures |c| == Used() <= mask
    {
      seq(Used(), i requires 0 <= i < Used() => data[Pos(head, i, Size())])
    }

    function Putch(ch: Byte): (Ring, bool)
      requires Valid()
    {
      var stored := this.(data := data[tail := ch]);
      var t := Next(tail);
      if t == head then (stored, false) else (stored.(tail := t), true)
    }

    function Getch(): (Ring, Option<Byte>)
      requires Valid()
    {
      if head == tail then (this, None)
      else (this.(head := Next(head)), Some(data[head]))
    }

    function Flush(): Ring { this.(head := tail) }

    /** memcpy up to the end of the buffer; writing goes on at its start. */
    function FillEnd(src: seq<Byte>): Ring
      requires tail + |src| <= |data|
    {
      this.(data := Spliced(data, tail, src), tail := 0)
    }

    /** memcpy that stays below the end of the buffer. */
    function Store(src: seq<Byte>): Ring
      requires tail + |src| <= |data|
    {
      this.(data := Spliced(data, tail, src), tail := tail + |src|)
    }

    function Put(buf: seq<Byte>): (Ring, nat)
      requires Valid()
    {
      var length := Min(|buf|, mask - Used());
      var endSpace := Size() - tail;
      if length >= endSpace then (FillEnd(buf[..endSpace]).Store(buf[endSpace..length]), length)
      else (Store(buf[..length]), length)
    }

    function Get(length: nat): (Ring, seq<Byte>)
      requires Valid()
    {
      var n := Min(length, Used());
      var endSpace := Size() - head;
      if n > endSpace then
        (this.(head := n - endSpace), data[head..head + endSpace] + data[..n - endSpace])
      else
        (this.(head := head + n), data[head..head + n])
    }

    /** The first copy of a get that wraps: the bytes up to the end, and head back at the start. */
    function TakeToEnd(): (Ring, seq<Byte>)
      requires Valid()
    {
      if Used() <= Size() - head then (this, []) else (this.(head := 0), data[head..Size()])
    }
  }

  /** Masking is reduction modulo the ring size, however the unsigned difference wrapped. */
  lemma MaskedIs(x: int, mask: nat, q: int, r: nat)
    requires IsPow2(mask + 1) && mask + 1 < T32
    requires x == q * (mask + 1) + r && r <= mask
    ensures Masked(x, mask) == r
  {
    AndMask(x % T32, mask + 1);
    PowerDividesUint(mask + 1);
    var k := T32 / (mask + 1);
    DivModFacts(x, T32);
    var m := x / T32;
    assert x % T32 == x - m * T32;
    MulAssoc(m, k, mask + 1);
    assert x % T32 == (q - m * k) * (mask + 1) + r by {
      SubDistrib(q, m * k, mask + 1);
    }
    DivModUnique(x % T32, mask + 1, q - m * k, r);
  }

  lemma SubDistrib(a: int, b: int, c: int)
    ensures (a - b) * c == a * c - b * c
  {
  }

  lemma PowerDividesUint(size: nat)
    requires IsPow2(size) && size < T32
    ensures T32 == (T32 / size) * size
  {
    var k := IsPow2Exponent(size);
    UintIsPower();
    if k > 32 {
      PowMonotone(2, 32, k);
    }
    PowAdd(2, 32 - k, k);
    DivModUnique(T32, size, Pow2(32 - k), 0);
  }

  lemma UintIsPower()
    ensures T32 == Pow2(32)
  {
    assert Pow2(8) == 256;
    PowAdd(2, 8, 8);
    PowAdd(2, 16, 16);
  }

  /** xbee_cbuf_used and xbee_cbuf_free as computed; they always add up to the capacity. */
  lemma MaskedSpace(r: Ring)
    requires r.Valid()
    ensures Masked(r.tail - r.head, r.mask) == r.Used()
    ensures Masked(r.head - r.tail - 1, r.mask) == r.mask - r.Used()
  {
    if r.tail >= r.head {
      MaskedIs(r.tail - r.head, r.mask, 0, r.tail - r.head);
      MaskedIs(r.head - r.tail - 1, r.mask, -1, r.mask - (r.tail - r.head));
    } else {
      MaskedIs(r.tail - r.head, r.mask, -1, r.tail - r.head + r.Size());
      MaskedIs(r.head - r.tail - 1, r.mask, 0, r.head - r.tail - 1);
    }
  }

  lemma MaskedNext(r: Ring, i: nat)
    requires r.Valid() && i <= r.mask + 1
    ensures Masked(i + 1, r.mask) == r.Next(i)
  {
    if i >= r.mask {
      MaskedIs(i + 1, r.mask, 1, i - r.mask);
    } else {
      MaskedIs(i + 1, r.mask, 0, i + 1);
    }
  }

  /** The state in which a full ring looks different from full to putch: head one past the end
      and tail on the last cell. */
  predicate Overrun(r: Ring) { r.head == r.mask + 1 && r.tail == r.mask }

  /** putch appends unless full, and reports which. */
  predicate PutchIsFifo(r: Ring, ch: Byte)
    requires r.Valid() && r.Putch(ch).0.Valid()
  {
    var (r', ok) := r.Putch(ch);
    && (ok <==> |r.Contents()| < r.mask)
    && r'.Contents() == if ok then r.Contents() + [ch] else r.Contents()
  }

  lemma PutchSpec(r: Ring, ch: Byte)
    requires r.Valid()
    ensures var (r', ok) := r.Putch(ch);
            && r'.Valid() && r'.mask == r.mask && r'.head == r.head
            && (Overrun(r) ==> ok && |r.Contents()| == r.mask && r'.Contents() == [])
            && (PutchIsFifo(r, ch) <==> !Overrun(r))
  {
    var (r', ok) := r.Putch(ch);
    if !Overrun(r) {
      var c, c' := r.Contents(), r'.Contents();
      forall i | 0 <= i < |c| ensures c'[i] == c[i] {
        TailIndex(r, i);
        ContentsAt(r, i);
        ContentsAt(r', i);
      }
      TailIndex(r, r.Used());
      assert |c'| == |c| + (if ok then 1 else 0);
      if ok {
        ContentsAt(r', |c|);
      }
      assert c' == if ok then c + [ch] else c;
    }
  }

  /** getch removes and returns the oldest byte, or reports an empty ring. */
  predicate GetchIsFifo(r: Ring)
    requires r.Valid() && r.Getch().0.Valid()
  {
    var (r', out) := r.Getch();
    var c := r.Contents();
    if c == [] then out == None && r'.Contents() == []
    else out == Some(c[0]) && r'.Contents() == c[1..]
  }

  /** The state in which getch goes wrong: head one past the end of the buffer, as a get leaves
      it, and the byte there not by chance the oldest one. */
  predicate StrayGetch(r: Ring)
    requires r.Valid()
  {
    r.head == r.mask + 1 && (r.Contents() == [] || r.data[r.mask + 1] != r.Contents()[0])
  }

  /** With head in range getch is correct. With head one past the end it reads the byte behind
      the buffer: an empty ring then looks full of stale bytes, and a byte is right only if the
      byte behind the buffer happens to equal it. */
  lemma GetchSpec(r: Ring)
    requires r.Valid()
    ensures var (r', out) := r.Getch();
            && r'.Valid() && r'.mask == r.mask && r'.tail == r.tail && r'.data == r.data && r'.head <= r.mask
            && (r.head == r.mask + 1 ==> out == Some(r.data[r.mask + 1]))
            && (r.head == r.mask + 1 && r.Contents() == [] ==> |r'.Contents()| == r.mask)
            && (r.Contents() != [] ==> r'.Contents() == r.Contents()[1..])
            && (GetchIsFifo(r) <==> !StrayGetch(r))
  {
    var (r', out) := r.Getch();
    if r.head == r.tail {
    } else if r.Contents() != [] {
      assert r'.Contents() == r.Contents()[1..];
    }
  }

  lemma ContentsAt(r: Ring, i: nat)
    requires r.Valid() && i < r.Used()
    ensures r.Contents()[i] == r.data[Pos(r.head, i, r.Size())]
  {
  }

  /** The cell at tail is the one after the last buffered byte. */
  lemma TailIndex(r: Ring, i: nat)
    requires r.Valid() && i <= r.mask
    ensures Pos(r.head, i, r.Size()) == r.tail <==> i == r.Used()
  {
  }

  lemma SplicedAt(data: seq<Byte>, pos: nat, src: seq<Byte>, j: nat)
    requires pos + |src| <= |data| && j < |data|
    ensures Spliced(data, pos, src)[j] == if pos <= j < pos + |src| then src[j - pos] else data[j]
  {
  }

  /** The cells a put writes, by their distance from tail. */
  lemma PutCell(r: Ring, buf: seq<Byte>, j: nat)
    requires r.Valid() && j <= r.mask
    ensures var (r', n) := r.Put(buf);
            var k := if j >= r.tail then j - r.tail else j + r.Size() - r.tail;
            |r'.data| == |r.data| && r'.data[j] == if k < n then buf[k] else r.data[j]
  {
    var n := r.Put(buf).1;
    var endSpace := r.Size() - r.tail;
    if n >= endSpace {
      SplicedAt(r.data, r.tail, buf[..endSpace], j);
      SplicedAt(r.FillEnd(buf[..endSpace]).data, 0, buf[endSpace..n], j);
    } else {
      SplicedAt(r.data, r.tail, buf[..n], j);
    }
  }

  /** put appends as much as fits, in order, whether or not it wraps. */
  lemma PutSpec(r: Ring, buf: seq<Byte>)
    requires r.Valid()
    ensures var (r', n) := r.Put(buf);
            && r'.Valid() && r'.mask == r.mask && r'.head == r.head
            && n == Min(|buf|, r.mask - |r.Contents()|)
            && r'.Contents() == r.Contents() + buf[..n]
  {
    var (r', n) := r.Put(buf);
    var c, c' := r.Contents(), r'.Contents();
    assert |c'| == |c| + n && r'.head == r.head && r'.mask == r.mask;
    forall i | 0 <= i < |c'| ensures c'[i] == (c + buf[..n])[i] {
      PutAt(r, buf, i);
    }
    assert c' == c + buf[..n];
  }

  /** How far past tail the i-th cell of the ring lies. */
  lemma PastTail(r: Ring, i: nat)
    requires r.Valid() && i <= r.mask
    ensures var p := Pos(r.head, i, r.Size());
            p <= r.mask
            && (if p >= r.tail then p - r.tail else p + r.Size() - r.tail)
               == (if i < r.Used() then r.Size() - r.Used() + i else i - r.Used())
  {
  }

  lemma PutKeeps(r: Ring, buf: seq<Byte>)
    requires r.Valid()
    ensures var (r', n) := r.Put(buf);
            r'.head == r.head && r'.mask == r.mask && n == Min(|buf|, r.mask - r.Used())
  {
  }

  /** Byte i of the ring after a put. */
  lemma PutAt(r: Ring, buf: seq<Byte>, i: nat)
    requires r.Valid() && r.Put(buf).0.Valid() && i < r.Put(buf).0.Used()
    ensures r.Put(buf).0.Contents()[i] == if i < r.Used() then r.Contents()[i] else buf[i - r.Used()]
  {
    PutKeeps(r, buf);
    PutCellAt(r, buf, i);
    ContentsAt(r.Put(buf).0, i);
    if i < r.Used() {
      ContentsAt(r, i);
    }
  }

  /** The cells a put leaves, by their distance from head. */
  lemma PutCellAt(r: Ring, buf: seq<Byte>, i: nat)
    requires r.Valid() && i <= r.mask && i < r.Used() + r.Put(buf).1
    ensures var p := Pos(r.head, i, r.Size());
            p < |r.Put(buf).0.data| == |r.data| &&
            r.Put(buf).0.data[p] == if i < r.Used() then r.data[p] else buf[i - r.Used()]
  {
    PastTail(r, i);
    PutKeeps(r, buf);
    PutCell(r, buf, Pos(r.head, i, r.Size()));
  }

  /** get removes and returns as much as there is, in order; it leaves head one past the end
      exactly when the bytes it took end at the end of the buffer. */
  lemma GetSpec(r: Ring, length: nat)
    requires r.Valid()
    ensures var (r', out) := r.Get(length);
            && r'.Valid() && r'.mask == r.mask && r'.tail == r.tail && r'.data == r.data
            && out == r.Contents()[..Min(length, |r.Contents()|)]
            && r'.Contents() == r.Contents()[Min(length, |r.Contents()|)..]
            && (r'.head == r.mask + 1 <==> r.head + |out| == r.mask + 1)
  {
    var (r', out) := r.Get(length);
    var n := Min(length, r.Used());
    var c, c' := r.Contents(), r'.Contents();
    assert |out| == n && |c'| == |c| - n;
    forall i | 0 <= i < n ensures out[i] == c[i] {
      ContentsAt(r, i);
    }
    forall i | 0 <= i < |c'| ensures c'[i] == c[n..][i] {
      ContentsAt(r', i);
      ContentsAt(r, n + i);
    }
    assert out == c[..n];
    assert c' == c[n..];
  }

  /** The state between the two copies of a get that wraps. */
  lemma TakeToEndSpec(r: Ring)
    requires r.Valid()
    ensures var (r', out) := r.TakeToEnd();
            && r'.Valid() && r'.mask == r.mask && r'.tail == r.tail && r'.data == r.data
            && |out| <= |r.Contents()|
            && out == r.Contents()[..|out|] && r'.Contents() == r.Contents()[|out|..]
            && (r'.head == r.mask + 1 ==> r' == r)
  {
    var (r', out) := r.TakeToEnd();
    var c, c' := r.Contents(), r'.Contents();
    if r' != r {
      assert |out| == r.Size() - r.head && |c'| == |c| - |out|;
      forall i | 0 <= i < |out| ensures out[i] == c[i] {
        ContentsAt(r, i);
      }
      forall i | 0 <= i < |c'| ensures c'[i] == c[|out|..][i] {
        ContentsAt(r', i);
        ContentsAt(r, |out| + i);
      }
    }
  }

  /** A get that wraps is its two copies. */
  lemma GetInTwo(r: Ring, length: nat)
    requires r.Valid() && Min(length, r.Used()) > r.Size() - r.head
    ensures var (r1, first) := r.TakeToEnd();
            r1.Valid() && |first| <= length &&
            var (r2, second) := r1.Get(length - |first|);
            r.Get(length) == (r2, first + second)
  {
    TakeToEndSpec(r);
    var (r1, first) := r.TakeToEnd();
    assert first == r.data[r.head..r.Size()] && r1.head == 0;
    assert r1.Used() == r.Used() - |first|;
  }

  lemma FlushSpec(r: Ring)
    requires r.Valid()
    ensures r.Flush().Valid() && r.Flush().mask == r.mask && r.Flush().head <= r.mask
    ensures r.Flush().Contents() == []
  {
  }

  // ---------------------------------------------------------------- whole runs

  datatype Op = OpPutch(ch: Byte) | OpGetch | OpPut(buf: seq<Byte>) | OpGet(length: nat) | OpFlush

  datatype Out = OutOk(ok: bool) | OutByte(b: Option<Byte>) | OutCount(n: nat) | OutBytes(s: seq<Byte>) | OutNone

  function RingStep(r: Ring, op: Op): (Ring, Out)
    requires r.Valid()
  {
    match op
    case OpPutch(ch) => var (r', ok) := r.Putch(ch); (r', OutOk(ok))
    case OpGetch => var (r', b) := r.Getch(); (r', OutByte(b))
    case OpPut(buf) => var (r', n) := r.Put(buf); (r', OutCount(n))
    case OpGet(n) => var (r', s) := r.Get(n); (r', OutBytes(s))
    case OpFlush => (r.Flush(), OutNone)
  }

  /** The bounded first-in first-out queue the buffer stands for. */
  function FifoStep(q: seq<Byte>, cap: nat, op: Op): (seq<Byte>, Out)
    requires |q| <= cap
  {
    match op
    case OpPutch(ch) => if |q| < cap then (q + [ch], OutOk(true)) else (q, OutOk(false))
    case OpGetch => if q == [] then (q, OutByte(None)) else (q[1..], OutByte(Some(q[0])))
    case OpPut(buf) => var n := Min(|buf|, cap - |q|); (q + buf[..n], OutCount(n))
    case OpGet(length) => var n := Min(length, |q|); (q[n..], OutBytes(q[..n]))
    case OpFlush => ([], OutNone)
  }

  /** The operation finds the indices it can handle. */
  predicate Handles(r: Ring, op: Op)
    requires r.Valid()
  {
    match op
    case OpPutch(_) => !Overrun(r)
    case OpGetch => !StrayGetch(r)
    case _ => true
  }

  lemma StepRefines(r: Ring, op: Op)
    requires r.Valid()
    ensures var (r', out) := RingStep(r, op);
            && r'.Valid() && r'.mask == r.mask
            && (Handles(r, op) ==> (r'.Contents(), out) == FifoStep(r.Contents(), r.mask, op))
            && (!op.OpGet? && r.head <= r.mask ==> r'.head <= r.mask)
  {
    match op
    case OpPutch(ch) => PutchSpec(r, ch);
    case OpGetch => GetchSpec(r);
    case OpPut(buf) => PutSpec(r, buf);
    case OpGet(n) => GetSpec(r, n);
    case OpFlush => FlushSpec(r);
  }

  function RingRun(r: Ring, ops: seq<Op>): (res: (Ring, seq<Out>))
    requires r.Valid()
    ensures res.0.Valid()
    decreases |ops|
  {
    if ops == [] then (r, [])
    else
      StepRefines(r, ops[0]);
      var (r', out) := RingStep(r, ops[0]);
      var (last, outs) := RingRun(r', ops[1..]);
      (last, [out] + outs)
  }

  function FifoRun(q: seq<Byte>, cap: nat, ops: seq<Op>): (seq<Byte>, seq<Out>)
    requires |q| <= cap
    decreases |ops|
  {
    if ops == [] then (q, [])
    else
      var (q', out) := FifoStep(q, cap, ops[0]);
      var (last, outs) := FifoRun(q', cap, ops[1..]);
      (last, [out] + outs)
  }

  predicate AllHandled(r: Ring, ops: seq<Op>)
    requires r.Valid()
    decreases |ops|
  {
    ops == [] ||
    (Handles(r, ops[0]) && (StepRefines(r, ops[0]); AllHandled(RingStep(r, ops[0]).0, ops[1..])))
  }

  /** Over every run in which each operation is handled, the buffer is a bounded queue: same
      outputs, same final contents. */
  lemma {:induction false} RunRefines(r: Ring, ops: seq<Op>)
    requires r.Valid() && AllHandled(r, ops)
    ensures var (last, outs) := RingRun(r, ops);
            (last.Contents(), outs) == FifoRun(r.Contents(), r.mask, ops)
    decreases |ops|
  {
    if ops != [] {
      StepRefines(r, ops[0]);
      RunRefines(RingStep(r, ops[0]).0, ops[1..]);
    }
  }

  /** Without xbee_cbuf_get every run is handled. */
  lemma {:induction false} NoGetIsHandled(r: Ring, ops: seq<Op>)
    requires r.Valid() && r.head <= r.mask
    requires forall i :: 0 <= i < |ops| ==> !ops[i].OpGet?
    ensures AllHandled(r, ops)
    decreases |ops|
  {
    if ops != [] {
      StepRefines(r, ops[0]);
      NoGetIsHandled(RingStep(r, ops[0]).0, ops[1..]);
    }
  }

  /** No single byte is appended while the queue is full. */
  predicate RoomForPutch(q: seq<Byte>, cap: nat, ops: seq<Op>)
    requires |q| <= cap
    decreases |ops|
  {
    ops == [] ||
    ((ops[0].OpPutch? ==> |q| < cap) && RoomForPutch(FifoStep(q, cap, ops[0]).0, cap, ops[1..]))
  }

  /** With xbee_cbuf_get but without xbee_cbuf_getch, every run that appends single bytes only
      when there is room is handled. */
  lemma {:induction false} NoGetchIsHandled(r: Ring, ops: seq<Op>)
    requires r.Valid() && RoomForPutch(r.Contents(), r.mask, ops)
    requires forall i :: 0 <= i < |ops| ==> !ops[i].OpGetch?
    ensures AllHandled(r, ops)
    decreases |ops|
  {
    if ops != [] {
      StepRefines(r, ops[0]);
      assert Overrun(r) ==> |r.Contents()| == r.mask;
      NoGetchIsHandled(RingStep(r, ops[0]).0, ops[1..]);
    }
  }

  lemma SmallRing(data: seq<Byte>)
    requires |data| == 5
    ensures Ring(0, 0, 3, data).Valid()
  {
    assert IsPow2(4) && IsPow2(2);
  }

  /** Mixing the two reads is what goes wrong: a getch on the emptied ring returns a byte. */
  lemma MixedReadsReturnAStaleByte(data: seq<Byte>)
    requires |data| == 5
    ensures Ring(0, 0, 3, data).Valid()
    ensures var ops := [OpPut([1, 2, 3]), OpGet(3), OpPutch(4), OpGet(1), OpGetch];
            && RingRun(Ring(0, 0, 3, data), ops).1[4] == OutByte(Some(data[4]))
            && FifoRun([], 3, ops).1[4] == OutByte(None)
  {
    SmallRing(data);
    var r0 := Ring(0, 0, 3, data);
    var tail4 := [OpGet(3), OpPutch(4), OpGet(1), OpGetch];
    var ops := [OpPut([1, 2, 3])] + tail4;
    assert ops[1..] == tail4;
    assert tail4[1..] == [OpPutch(4), OpGet(1), OpGetch];
    assert tail4[1..][1..] == [OpGet(1), OpGetch];
    assert tail4[1..][1..][1..] == [OpGetch];
    var r1 := RingStep(r0, ops[0]).0;
    StepRefines(r0, ops[0]);
    var r2 := RingStep(r1, OpGet(3)).0;
    StepRefines(r1, OpGet(3));
    var r3 := RingStep(r2, OpPutch(4)).0;
    StepRefines(r2, OpPutch(4));
    var r4 := RingStep(r3, OpGet(1)).0;
    StepRefines(r3, OpGet(1));
    assert r4.head == 4 && r4.tail == 0 && r4.data[4] == data[4];
  }

  lemma PutValid(r: Ring, buf: seq<Byte>)
    requires r.Valid()
    ensures r.Put(buf).0.Valid()
  {
    PutSpec(r, buf);
  }

  lemma GetValid(r: Ring, length: nat)
    requires r.Valid()
    ensures r.Get(length).0.Valid()
  {
    GetSpec(r, length);
  }

  // ---------------------------------------------------------------- the structure in memory

  /** struct xbee_cbuf_t. data is the memory from the first buffer byte on: datasize bytes, the
      separator and the byte that follows. */
  class Cbuf {
    var head: nat
    var tail: nat
    var mask: nat
    const data: array<Byte>

    constructor (memory: array<Byte>)
      ensures data == memory
    {
      data := memory;
    }

    ghost function View(): Ring
      reads this, data
    {
      Ring(head, tail, mask, data[..])
    }

    ghost predicate Valid()
      reads this, data
    {
      View().Valid()
    }

    method Putch(ch: Byte) returns (ok: bool)
      requires Valid()
      modifies this, data
      ensures Valid() && (View(), ok) == old(View()).Putch(ch)
    {
      PutchSpec(View(), ch);
      MaskedNext(View(), tail);
      var t := tail;
      data[t] := ch;
      t := Masked(t + 1, mask);
      if t == head {
        return false;
      }
      tail := t;
      ok := true;
    }

    method Getch() returns (b: Option<Byte>)
      requires Valid()
      modifies this
      ensures Valid() && (View(), b) == old(View()).Getch()
    {
      GetchSpec(View());
      MaskedNext(View(), head);
      var h := head;
      if h == tail {
        return None;
      }
      b := Some(data[h]);
      head := Masked(h + 1, mask);
    }

    method Used() returns (n: nat)
      requires Valid()
      ensures n == View().Used()
    {
      MaskedSpace(View());
      n := Masked(tail - head, mask);
    }

    method Free() returns (n: nat)
      requires Valid()
      ensures n == mask - View().Used()
    {
      MaskedSpace(View());
      n := Masked(head - tail - 1, mask);
    }

    method Flush()
      requires Valid()
      modifies this
      ensures Valid() && View() == old(View()).Flush()
    {
      head := tail;
    }

    /** memcpy into the buffer. */
    method MemCpy(pos: nat, src: seq<Byte>)
      requires pos + |src| <= data.Length
      modifies data
      ensures data[..] == Spliced(old(data[..]), pos, src)
    {
      ghost var before := data[..];
      for i := 0 to |src|
        invariant data[..] == Spliced(before, pos, src[..i])
      {
        data[pos + i] := src[i];
        assert src[..i + 1] == src[..i] + [src[i]];
      }
      assert src[..|src|] == src;
    }

    method FillEnd(src: seq<Byte>)
      requires tail + |src| <= data.Length
      modifies this, data
      ensures View() == old(View()).FillEnd(src)
    {
      MemCpy(tail, src);
      tail := 0;
    }

    method Store(src: seq<Byte>)
      requires tail + |src| <= data.Length
      modifies this, data
      ensures View() == old(View()).Store(src)
    {
      MemCpy(tail, src);
      tail := tail + |src|;
    }

    method Put(buf: seq<Byte>) returns (copied: nat)
      requires Valid()
      modifies this, data
      ensures Valid() && (View(), copied) == old(View()).Put(buf)
    {
      PutValid(View(), buf);
      var bufFree := Free();
      var length := Min(|buf|, bufFree);
      copied := Append(buf, length);
    }

    /** The copies of a put: up to the end of the buffer, then from its start. */
    method Append(buf: seq<Byte>, length: nat) returns (copied: nat)
      requires length <= |buf| && length < data.Length - 1 && tail <= mask && data.Length == mask + 2
      modifies this, data
      ensures copied == length
      ensures var r, endSpace := old(View()), old(mask + 1 - tail);
              View() == if length >= endSpace then r.FillEnd(buf[..endSpace]).Store(buf[endSpace..length])
                        else r.Store(buf[..length])
    {
      copied := 0;
      var endSpace := mask + 1 - tail;
      if length >= endSpace {
        FillEnd(buf[..endSpace]);
        copied := endSpace;
      }
      assert copied == 0 ==> buf[copied..length] == buf[..length];
      Store(buf[copied..length]);
      copied := length;
    }

    method Get(bufsize: nat) returns (out: seq<Byte>)
      requires Valid()
      modifies this
      ensures Valid() && (View(), out) == old(View()).Get(bufsize)
    {
      GetValid(View(), bufsize);
      ghost var r := View();
      out := [];
      var bufUsed := Used();
      var endSpace := mask + 1 - head;
      var length := Min(bufsize, bufUsed);
      if length > endSpace {
        out := data[head..head + endSpace];
        head := 0;
        length := length - endSpace;
      }
      out := out + data[head..head + length];
      head := head + length;
      assert out == r.Get(bufsize).1;
    }
  }

  /** The size plus one may wrap. */
  lemma SizeTest(datasize: nat)
    requires datasize < T32
    ensures And(datasize, (datasize + 1) % T32) == 0 <==> IsPow2(datasize + 1)
  {
    if datasize + 1 == T32 {
      UintIsPower();
      Pow2IsPow2(32);
    } else {
      AndSuccessor(datasize);
    }
  }

  /** xbee_cbuf_init. The largest size passes its test too, because the size plus one wraps; its
      ring would need all the memory there is. */
  method Init(cbuf: Cbuf?, datasize: nat) returns (ret: int)
    requires datasize < T32 && (cbuf != null ==> cbuf.data.Length == datasize + 2)
    modifies cbuf
    ensures ret == 0 || ret == -EINVAL
    ensures ret == 0 <==> cbuf != null && datasize >= 3 && IsPow2(datasize + 1)
    ensures cbuf != null && ret == 0 ==> cbuf.mask == datasize && cbuf.head == 0 && cbuf.tail == 0
    ensures cbuf != null && ret == 0 && datasize + 1 < T32 ==> cbuf.Valid() && cbuf.View().Contents() == []
    ensures cbuf != null && ret != 0 ==> unchanged(cbuf)
  {
    SizeTest(datasize);
    if cbuf == null || datasize < 3 || And(datasize, (datasize + 1) % T32) != 0 {
      return -EINVAL;
    }
    cbuf.mask := datasize;
    cbuf.head, cbuf.tail := 0, 0;
    ret := 0;
  }
}
