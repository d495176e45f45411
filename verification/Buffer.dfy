/** The growable byte buffer of net/buffer.cpp: an array with unread bytes
    between two indices, written at the end after making room either by moving
    the unread bytes to the front, in place, or by `vector::resize`.

    The vector is modelled with its `size` and its capacity apart, because the
    code tests the capacity and resizes by the size. How much capacity beyond
    the requested size a reallocation leaves, and what is in it, is up to the
    library: it is the parameter `slack`. */
module ByteBuffer {
  import opened Sequences
  import opened Bytes

  const BUFFER_SIZE := 4096
  const CR: byte := 13
  const LF: byte := 10

  /** One value of the buffer: `mem` is the whole allocation. */
  datatype View = View(mem: seq<byte>, size: nat, start: nat, end: nat) {
    predicate Valid() {
      start <= end <= |mem| && size <= |mem|
    }

    /** No capacity beyond the vector's size. */
    predicate Exact() {
      Valid() && size == |mem|
    }

    function Unread(): seq<byte>
      requires Valid()
    {
      mem[start..end]
    }
  }

  const EMPTY := View(Zeros(BUFFER_SIZE), BUFFER_SIZE, 0, 0)

  function Zeros(n: nat): (s: seq<byte>)
    ensures |s| == n && forall i :: 0 <= i < n ==> s[i] == 0
  {
    seq(n, _ => 0)
  }

  /** Neither the tail nor the tail and the consumed front together hold `len` more bytes. */
  predicate Grows(v: View, len: nat)
    requires v.Valid()
  {
    |v.mem| - v.end < len && v.start + |v.mem| - v.end < len
  }

  function MakeSpace(v: View, len: nat, slack: seq<byte>): (w: View)
    requires v.Valid()
    ensures w.Valid() && w.end - w.start == v.end - v.start && w.end + len <= |w.mem|
  {
    if |v.mem| - v.end >= len then v
    else if v.start + |v.mem| - v.end >= len then
      View(v.mem[v.start..v.end] + v.mem[v.end - v.start..], v.size, 0, v.end - v.start)
    else
      View(v.mem[..v.size] + Zeros(v.end + len - v.size) + slack, v.end + len, v.start, v.end)
  }

  function Put(v: View, data: seq<byte>, slack: seq<byte>): (w: View)
    requires v.Valid()
    ensures w.Valid()
  {
    var m := MakeSpace(v, |data|, slack);
    View(m.mem[..m.end] + data + m.mem[m.end + |data|..], m.size, m.start, m.end + |data|)
  }

  /** What a write must find for no unread byte to be lost: it does not grow the
      vector, or no unread byte lies beyond the vector's size (or those that do
      are zero, which is what the new vector has there). */
  predicate KeepsUnread(v: View, len: nat)
    requires v.Valid()
  {
    !Grows(v, len) || v.end <= v.size || forall i :: v.start <= i < v.end && v.size <= i ==> v.mem[i] == 0
  }

  lemma MakeSpaceUnread(v: View, len: nat, slack: seq<byte>)
    requires v.Valid()
    ensures MakeSpace(v, len, slack).Unread() == v.Unread() <==> KeepsUnread(v, len)
  {
    var w := MakeSpace(v, len, slack);
    if Grows(v, len) {
      assert forall i :: v.start <= i < v.end ==> w.mem[i] == if i < v.size then v.mem[i] else 0;
      forall i | v.start <= i < v.end
        ensures w.Unread()[i - v.start] == w.mem[i] && v.Unread()[i - v.start] == v.mem[i]
      {}
      if w.Unread() == v.Unread() {
        forall i | v.start <= i < v.end && v.size <= i
          ensures v.mem[i] == 0
        {
          assert w.Unread()[i - v.start] == v.Unread()[i - v.start];
        }
      }
    }
  }

  /** A write appends to the unread bytes exactly when growing does not drop any. */
  lemma PutAppends(v: View, data: seq<byte>, slack: seq<byte>)
    requires v.Valid()
    ensures Put(v, data, slack).Unread() == v.Unread() + data <==> KeepsUnread(v, |data|)
  {
    var m := MakeSpace(v, |data|, slack);
    MakeSpaceUnread(v, |data|, slack);
    assert Put(v, data, slack).Unread() == m.Unread() + data;
    if m.Unread() + data == v.Unread() + data {
      assert m.Unread() == (m.Unread() + data)[..|v.Unread()|];
      assert v.Unread() == (v.Unread() + data)[..|v.Unread()|];
    }
  }

  /** Three writes without a read in between lose bytes when the first
      reallocation leaves room to spare: the second write lands beyond the
      vector's size, and the third one's reallocation does not copy it. */
  lemma SlackLosesBytes(a: seq<byte>, b: seq<byte>, c: seq<byte>, slack: seq<byte>)
    requires |a| == 5000 && |b| == 3000 && |c| == 1000 && |slack| == 3192 && b[0] != 0
    ensures Put(Put(Put(EMPTY, a, slack), b, []), c, []).Unread() != a + b + c
  {
    var v := Put(EMPTY, a, slack);
    assert |v.mem| == 8192 && v.size == v.end == 5000 && v.start == 0;
    PutAppends(EMPTY, a, slack);
    var w := Put(v, b, []);
    PutAppends(v, b, []);
    assert w.mem[5000] == b[0] && w.size == 5000 && w.end == 8000;
    PutAppends(w, c, []);
    assert EMPTY.Unread() == [] && w.Unread() == [] + a + b == a + b;
  }

  /** A library that at least doubles the size: reading five times 4096 bytes into a new
      buffer loses the fourth piece, which lies in the reserve of the third one's
      reallocation when the fifth one's does not copy it. */
  lemma DoublingLosesBytes(p: seq<seq<byte>>, reserve: seq<byte>, slack: seq<byte>)
    requires |p| == 5 && (forall i :: 0 <= i < 5 ==> |p[i]| == BUFFER_SIZE) && |reserve| == BUFFER_SIZE && p[3][0] != 0
    ensures var v := Put(Put(Put(EMPTY, p[0], []), p[1], []), p[2], reserve);
            Put(Put(v, p[3], []), p[4], slack).Unread() != p[0] + p[1] + p[2] + p[3] + p[4]
  {
    var v1 := Put(EMPTY, p[0], []);
    PutAppends(EMPTY, p[0], []);
    assert EMPTY.Unread() == [] && v1.Unread() == [] + p[0] == p[0];
    var v2 := Put(v1, p[1], []);
    PutAppends(v1, p[1], []);
    var v3 := Put(v2, p[2], reserve);
    PutAppends(v2, p[2], reserve);
    assert |v3.mem| == 4 * BUFFER_SIZE && v3.size == v3.end == 3 * BUFFER_SIZE && v3.start == 0;
    var v4 := Put(v3, p[3], []);
    PutAppends(v3, p[3], []);
    assert v4.mem[3 * BUFFER_SIZE] == p[3][0] && v4.size == 3 * BUFFER_SIZE && v4.end == 4 * BUFFER_SIZE;
    PutAppends(v4, p[4], slack);
  }

  // ---------- Runs ----------

  /** `Take` stands for read(n), has_read(n), read_str(n) and, with n = 4, read_int;
      `TakeAll` for read() without an argument. */
  datatype Op = Write(data: seq<byte>, slack: seq<byte>) | Take(n: nat) | TakeAll

  predicate Legal(unread: nat, ops: seq<Op>)
    decreases |ops|
  {
    ops == [] ||
    match ops[0]
    case Write(data, _) => Legal(unread + |data|, ops[1..])
    case Take(n) => n <= unread && Legal(unread - n, ops[1..])
    case TakeAll => Legal(0, ops[1..])
  }

  function Step(v: View, op: Op): (r: (View, seq<byte>))
    requires v.Valid() && (op.Take? ==> op.n <= v.end - v.start)
    ensures r.0.Valid()
    ensures r.0.end - r.0.start == match op
                                   case Write(data, _) => v.end - v.start + |data|
                                   case Take(n) => v.end - v.start - n
                                   case TakeAll => 0
  {
    match op
    case Write(data, slack) => (Put(v, data, slack), [])
    case Take(n) => (v.(start := v.start + n), v.Unread()[..n])
    case TakeAll => if v.start == v.end then (v, []) else (v.(start := 0, end := 0), v.Unread())
  }

  /** The final buffer and everything read, in order. */
  function Run(v: View, ops: seq<Op>): (r: (View, seq<byte>))
    requires v.Valid() && Legal(v.end - v.start, ops)
    ensures r.0.Valid()
    decreases |ops|
  {
    if ops == [] then (v, [])
    else
      var (w, out) := Step(v, ops[0]);
      var (x, rest) := Run(w, ops[1..]);
      (x, out + rest)
  }

  /** No write of the run loses unread bytes. */
  predicate KeepsAll(v: View, ops: seq<Op>)
    requires v.Valid() && Legal(v.end - v.start, ops)
    decreases |ops|
  {
    ops == [] || ((ops[0].Write? ==> KeepsUnread(v, |ops[0].data|)) && KeepsAll(Step(v, ops[0]).0, ops[1..]))
  }

  function Written(ops: seq<Op>): seq<byte> {
    if ops == [] then []
    else if ops[0].Write? then ops[0].data + Written(ops[1..])
    else Written(ops[1..])
  }

  /** Everything read and then everything still unread. */
  function Total(v: View, ops: seq<Op>): seq<byte>
    requires v.Valid() && Legal(v.end - v.start, ops)
  {
    Run(v, ops).1 + Run(v, ops).0.Unread()
  }

  lemma TotalStep(v: View, ops: seq<Op>)
    requires v.Valid() && Legal(v.end - v.start, ops) && ops != []
    ensures Total(v, ops) == Step(v, ops[0]).1 + Total(Step(v, ops[0]).0, ops[1..])
    ensures ops[0].Write? ==> Total(v, ops) == Total(Step(v, ops[0]).0, ops[1..])
  {
    var (w, out) := Step(v, ops[0]);
    Assoc(out, Run(w, ops[1..]).1, Run(w, ops[1..]).0.Unread());
  }

  /** Taking moves bytes from what is unread to what is read. */
  lemma TakeStep(v: View, op: Op)
    requires v.Valid() && !op.Write? && (op.Take? ==> op.n <= v.end - v.start)
    ensures v.Unread() == Step(v, op).1 + Step(v, op).0.Unread()
  {
    if op.Take? {
      assert v.Unread()[op.n..] == Step(v, op).0.Unread();
    }
  }

  /** `a` is `b` with some bytes replaced by 0. */
  predicate Faded(a: seq<byte>, b: seq<byte>) {
    |a| == |b| && forall i :: 0 <= i < |a| ==> a[i] == b[i] || a[i] == 0
  }

  lemma FadedAppend(a: seq<byte>, b: seq<byte>, c: seq<byte>)
    requires Faded(a, b)
    ensures Faded(a + c, b + c) && Faded(c + a, c + b)
  {}

  lemma FadedTwice(a: seq<byte>, b: seq<byte>, c: seq<byte>)
    requires Faded(a, b) && Faded(b, c)
    ensures Faded(a, c) && (a == c ==> b == c)
  {}

  lemma WriteFades(v: View, data: seq<byte>, slack: seq<byte>)
    requires v.Valid()
    ensures Faded(Put(v, data, slack).Unread(), v.Unread() + data)
  {
    var m := MakeSpace(v, |data|, slack);
    assert Put(v, data, slack).Unread() == m.Unread() + data;
    assert Faded(m.Unread(), v.Unread());
    FadedAppend(m.Unread(), v.Unread(), data);
  }

  lemma WriteFadesTotal(v: View, op: Op, rest: seq<byte>, total: seq<byte>)
    requires v.Valid() && op.Write? && Faded(total, Step(v, op).0.Unread() + rest)
    ensures Faded(total, v.Unread() + (op.data + rest))
  {
    var unread := Step(v, op).0.Unread();
    WriteFades(v, op.data, op.slack);
    FadedAppend(unread, v.Unread() + op.data, rest);
    FadedTwice(total, unread + rest, (v.Unread() + op.data) + rest);
    Assoc(v.Unread(), op.data, rest);
  }

  lemma TakeFadesTotal(v: View, op: Op, rest: seq<byte>, total: seq<byte>)
    requires v.Valid() && !op.Write? && (op.Take? ==> op.n <= v.end - v.start)
    requires Faded(total, Step(v, op).0.Unread() + rest)
    ensures Faded(Step(v, op).1 + total, v.Unread() + rest)
    ensures total == Step(v, op).0.Unread() + rest <==> Step(v, op).1 + total == v.Unread() + rest
  {
    var (w, out) := Step(v, op);
    TakeStep(v, op);
    FadedAppend(total, w.Unread() + rest, out);
    Assoc(out, w.Unread(), rest);
    SamePrefix(out, total, w.Unread() + rest);
  }

  lemma FadesStep(v: View, ops: seq<Op>)
    requires v.Valid() && Legal(v.end - v.start, ops) && ops != []
    requires var w := Step(v, ops[0]).0; Faded(Total(w, ops[1..]), w.Unread() + Written(ops[1..]))
    ensures Faded(Total(v, ops), v.Unread() + Written(ops))
  {
    var total, rest := Total(Step(v, ops[0]).0, ops[1..]), Written(ops[1..]);
    TotalStep(v, ops);
    if ops[0].Write? {
      WriteFadesTotal(v, ops[0], rest, total);
    } else {
      TakeFadesTotal(v, ops[0], rest, total);
    }
  }

  /** A run can only replace bytes by 0, never lose, add or reorder any. */
  lemma {:induction false} RunFades(v: View, ops: seq<Op>)
    requires v.Valid() && Legal(v.end - v.start, ops)
    ensures Faded(Total(v, ops), v.Unread() + Written(ops))
    decreases |ops|
  {
    if ops != [] {
      RunFades(Step(v, ops[0]).0, ops[1..]);
      FadesStep(v, ops);
    }
  }

  lemma SamePrefix(a: seq<byte>, b: seq<byte>, c: seq<byte>)
    ensures a + b == a + c <==> b == c
  {
    assert b == (a + b)[|a|..] && c == (a + c)[|a|..];
  }

  lemma QueueStep(v: View, ops: seq<Op>)
    requires v.Valid() && Legal(v.end - v.start, ops) && ops != []
    ensures var w, rest := Step(v, ops[0]).0, Written(ops[1..]);
            Total(v, ops) == v.Unread() + Written(ops) <==>
            (ops[0].Write? ==> KeepsUnread(v, |ops[0].data|)) && Total(w, ops[1..]) == w.Unread() + rest
  {
    var w, rest := Step(v, ops[0]).0, Written(ops[1..]);
    RunFades(w, ops[1..]);
    TotalStep(v, ops);
    if ops[0].Write? {
      WriteDecides(v, ops[0], rest, Total(w, ops[1..]));
    } else {
      TakeFadesTotal(v, ops[0], rest, Total(w, ops[1..]));
    }
  }

  /** The buffer is a byte queue, over any run and whatever the library reserves: what
      was there first and what was written is what was read followed by what is still
      unread, exactly if no write of the run loses unread bytes. */
  lemma {:induction false} RunIsQueue(v: View, ops: seq<Op>)
    requires v.Valid() && Legal(v.end - v.start, ops)
    ensures Total(v, ops) == v.Unread() + Written(ops) <==> KeepsAll(v, ops)
    decreases |ops|
  {
    if ops != [] {
      RunIsQueue(Step(v, ops[0]).0, ops[1..]);
      QueueStep(v, ops);
    }
  }

  /** A byte that one write loses does not come back. */
  lemma WriteDecides(v: View, op: Op, rest: seq<byte>, total: seq<byte>)
    requires v.Valid() && op.Write? && Faded(total, Step(v, op).0.Unread() + rest)
    ensures var unread := Step(v, op).0.Unread();
            total == v.Unread() + (op.data + rest) <==> KeepsUnread(v, |op.data|) && total == unread + rest
  {
    var unread, goal := Step(v, op).0.Unread(), (v.Unread() + op.data) + rest;
    Assoc(v.Unread(), op.data, rest);
    PutAppends(v, op.data, op.slack);
    WriteFades(v, op.data, op.slack);
    FadedAppend(unread, v.Unread() + op.data, rest);
    FadedTwice(total, unread + rest, goal);
    if unread + rest == goal {
      assert unread == (unread + rest)[..|unread|] && v.Unread() + op.data == goal[..|unread|];
    }
  }

  /** Reallocation to exactly the requested size, at every write. */
  predicate NoSlack(ops: seq<Op>) {
    ops == [] || ((ops[0].Write? ==> ops[0].slack == []) && NoSlack(ops[1..]))
  }

  lemma StepExact(v: View, op: Op)
    requires v.Exact() && (op.Take? ==> op.n <= v.end - v.start) && (op.Write? ==> op.slack == [])
    ensures Step(v, op).0.Exact() && (op.Write? ==> KeepsUnread(v, |op.data|))
    ensures op.Write? ==> Step(v, op).0.Unread() == v.Unread() + op.data
  {
    if op.Write? {
      PutAppends(v, op.data, []);
    }
  }

  /** Then no byte is lost, so that the buffer is a queue over every run. */
  lemma {:induction false} ExactKeepsAll(v: View, ops: seq<Op>)
    requires v.Exact() && Legal(v.end - v.start, ops) && NoSlack(ops)
    ensures KeepsAll(v, ops) && Run(v, ops).0.Exact()
    ensures Total(v, ops) == v.Unread() + Written(ops)
    decreases |ops|
  {
    RunIsQueue(v, ops);
    if ops != [] {
      StepExact(v, ops[0]);
      ExactKeepsAll(Step(v, ops[0]).0, ops[1..]);
    }
  }

  /** The largest sum of unread bytes and pending write over a run. */
  function Peak(unread: nat, ops: seq<Op>): nat
    requires Legal(unread, ops)
    decreases |ops|
  {
    if ops == [] then unread
    else
      match ops[0]
      case Write(data, _) => Peak(unread + |data|, ops[1..])
      case Take(n) => var p := Peak(unread - n, ops[1..]); if p < unread then unread else p
      case TakeAll => var p := Peak(0, ops[1..]); if p < unread then unread else p
  }

  lemma {:induction false} PeakAtLeast(unread: nat, ops: seq<Op>)
    requires Legal(unread, ops)
    ensures unread <= Peak(unread, ops)
    decreases |ops|
  {
    if ops != [] && ops[0].Write? {
      PeakAtLeast(unread + |ops[0].data|, ops[1..]);
    }
  }

  /** The most that the library reserves beyond a requested size. */
  function Reserve(ops: seq<Op>): nat {
    if ops == [] then 0
    else
      var r := Reserve(ops[1..]);
      if ops[0].Write? && r < |ops[0].slack| then |ops[0].slack| else r
  }

  /** `after` is what some operations make of a capacity of `before`. */
  predicate Bounded(before: nat, after: nat, peak: nat, reserve: nat) {
    before <= after && (after <= before || after < 2 * peak + reserve)
  }

  lemma BoundedStep(v: View, ops: seq<Op>, after: nat)
    requires v.Valid() && Legal(v.end - v.start, ops) && ops != []
    requires var w := Step(v, ops[0]).0; Bounded(|w.mem|, after, Peak(w.end - w.start, ops[1..]), Reserve(ops[1..]))
    ensures Bounded(|v.mem|, after, Peak(v.end - v.start, ops), Reserve(ops))
  {
    var w := Step(v, ops[0]).0;
    if ops[0].Write? {
      GrowthStep(v, ops[0].data, ops[0].slack);
      PeakAtLeast(w.end - w.start, ops[1..]);
    } else {
      assert w.mem == v.mem;
    }
  }

  /** The allocation never shrinks and, but for what the library reserves, never exceeds
      twice the peak demand. */
  lemma {:induction false} CapacityBound(v: View, ops: seq<Op>)
    requires v.Valid() && Legal(v.end - v.start, ops)
    ensures |v.mem| <= |Run(v, ops).0.mem|
    ensures |Run(v, ops).0.mem| <= |v.mem| || |Run(v, ops).0.mem| < 2 * Peak(v.end - v.start, ops) + Reserve(ops)
    decreases |ops|
  {
    if ops != [] {
      CapacityBound(Step(v, ops[0]).0, ops[1..]);
      BoundedStep(v, ops, |Run(v, ops).0.mem|);
    }
  }

  /** One write reallocates only when unread and new bytes exceed the capacity together,
      and then, but for the reserve, to less than twice their number. */
  lemma GrowthStep(v: View, data: seq<byte>, slack: seq<byte>)
    requires v.Valid()
    ensures var w, demand := Put(v, data, slack), v.end - v.start + |data|;
            if demand <= |v.mem| then |w.mem| == |v.mem| else |v.mem| < |w.mem| < 2 * demand + |slack|
  {}

  // ---------- The class ----------

  predicate CrlfAt(s: seq<byte>, i: int) {
    0 <= i < |s| - 1 && s[i] == CR && s[i + 1] == LF
  }

  predicate NoCrlf(s: seq<byte>) {
    forall i :: 0 <= i < |s| - 1 ==> !CrlfAt(s, i)
  }

  /** Where the first CR LF at or after `from` starts, or -1. */
  function CrlfFrom(s: seq<byte>, from: nat): (r: int)
    ensures r == -1 || (from <= r && CrlfAt(s, r))
    ensures forall i :: from <= i < (if r < 0 then |s| - 1 else r) ==> !CrlfAt(s, i)
    decreases |s| - from
  {
    if from >= |s| - 1 then -1
    else if CrlfAt(s, from) then from
    else CrlfFrom(s, from + 1)
  }

  function FirstCrlf(s: seq<byte>): (r: int)
    ensures -1 <= r && (r < 0 <==> NoCrlf(s))
    ensures r >= 0 ==> CrlfAt(s, r) && forall i :: 0 <= i < r ==> !CrlfAt(s, i)
  {
    CrlfFrom(s, 0)
  }

  /** `std::copy` within one array, onto its front; the ranges may overlap. */
  method CopyDown(d: array<byte>, from: nat, n: nat)
    requires from + n <= d.Length
    modifies d
    ensures forall k :: 0 <= k < n ==> d[k] == old(d[from + k])
    ensures forall k :: n <= k < d.Length ==> d[k] == old(d[k])
  {
    for i := 0 to n
      invariant forall k :: 0 <= k < i ==> d[k] == old(d[from + k])
      invariant forall k :: i <= k < d.Length ==> d[k] == old(d[k])
    {
      d[i] := d[from + i];
    }
  }

  class Buffer {
    var date: array<byte>
    var size: nat
    var startIdx: nat
    var endIdx: nat

    ghost predicate Valid()
      reads this, date
    {
      Value().Valid()
    }

    ghost function Value(): View
      reads this, date
    {
      View(date[..], size, startIdx, endIdx)
    }

    ghost function Unread(): seq<byte>
      requires Valid()
      reads this, date
    {
      date[startIdx..endIdx]
    }

    constructor ()
      ensures Valid() && fresh(date) && Value() == EMPTY
    {
      date := new byte[BUFFER_SIZE](_ => 0);
      size, startIdx, endIdx := BUFFER_SIZE, 0, 0;
      new;
      assert date[..] == Zeros(BUFFER_SIZE);
    }

    method ReadableSize() returns (n: nat)
      requires Valid()
      ensures n == |Unread()|
    {
      n := endIdx - startIdx;
    }

    method MakeWriteSpace(len: nat, slack: seq<byte>)
      requires Valid()
      modifies this, date
      ensures Valid() && (date == old(date) || fresh(date))
      ensures Value() == MakeSpace(old(Value()), len, slack)
    {
      if date.Length - endIdx >= len {
        return;
      }
      if startIdx + date.Length - endIdx >= len {
        ghost var v := Value();
        Compact();
        assert date[..] == v.mem[v.start..v.end] + v.mem[v.end - v.start..];
        return;
      }
      Resize(endIdx + len, slack);
    }

    /** Moves the unread bytes to the front. */
    method Compact()
      requires Valid()
      modifies this, date
      ensures date == old(date) && startIdx == 0 && endIdx == old(endIdx - startIdx) && size == old(size)
      ensures forall k :: 0 <= k < date.Length ==>
                date[k] == old(if k < endIdx - startIdx then date[startIdx + k] else date[k])
    {
      var n := endIdx - startIdx;
      CopyDown(date, startIdx, n);
      startIdx, endIdx := 0, n;
    }

    /** `vector::resize` beyond the capacity: keeps the first `size` bytes. */
    method Resize(n: nat, slack: seq<byte>)
      requires Valid() && size <= n
      modifies this
      ensures fresh(date) && date[..] == old(date[..size]) + Zeros(n - old(size)) + slack
      ensures size == n && startIdx == old(startIdx) && endIdx == old(endIdx)
    {
      var grown := new byte[n + |slack|](_ => 0);
      var prior, date := size, this.date;
      for i := 0 to prior
        modifies grown
        invariant forall k :: 0 <= k < i ==> grown[k] == date[k]
        invariant forall k :: i <= k < grown.Length ==> grown[k] == 0
      {
        grown[i] := date[i];
      }
      for i := 0 to |slack|
        modifies grown
        invariant forall k :: 0 <= k < prior ==> grown[k] == date[k]
        invariant forall k :: prior <= k < n ==> grown[k] == 0
        invariant forall k :: 0 <= k < i ==> grown[n + k] == slack[k]
      {
        grown[n + i] := slack[i];
      }
      assert grown[..] == date[..prior] + Zeros(n - prior) + slack;
      this.date, size := grown, n;
    }

    method Write(data: seq<byte>, slack: seq<byte>)
      requires Valid()
      modifies this, date
      ensures Valid() && (date == old(date) || fresh(date))
      ensures Value() == Put(old(Value()), data, slack)
      ensures KeepsUnread(old(Value()), |data|) ==> Unread() == old(Unread()) + data
    {
      ghost var v := Value();
      MakeWriteSpace(|data|, slack);
      CopyToEnd(data);
      PutAppends(v, data, slack);
      assert Unread() == Value().Unread() && old(Unread()) == v.Unread();
    }

    method CopyToEnd(data: seq<byte>)
      requires Valid() && endIdx + |data| <= date.Length
      modifies this, date
      ensures date == old(date) && startIdx == old(startIdx) && size == old(size)
      ensures endIdx == old(endIdx) + |data|
      ensures date[..] == old(date[..endIdx]) + data + old(date[endIdx + |data|..])
    {
      ghost var m := Value();
      var d, to := date, endIdx;
      for i := 0 to |data|
        modifies d
        invariant forall k :: 0 <= k < i ==> d[to + k] == data[k]
        invariant forall k :: 0 <= k < d.Length && !(to <= k < to + i) ==> d[k] == m.mem[k]
      {
        d[to + i] := data[i];
      }
      endIdx := endIdx + |data|;
      assert date[..] == m.mem[..m.end] + data + m.mem[m.end + |data|..];
    }

    /** read() without an argument. */
    method ReadAll() returns (r: seq<byte>)
      requires Valid()
      modifies this
      ensures Valid() && date == old(date) && r == old(Unread())
      ensures Value() == if r == [] then old(Value()) else old(Value()).(start := 0, end := 0)
    {
      if endIdx - startIdx <= 0 {
        return [];
      }
      r := date[startIdx..endIdx];
      startIdx, endIdx := 0, 0;
    }

    method Read(n: nat) returns (r: seq<byte>)
      requires Valid() && n <= |Unread()|
      modifies this
      ensures Valid() && date == old(date) && Value() == old(Value()).(start := old(startIdx) + n)
      ensures r == old(Unread())[..n] && Unread() == old(Unread())[n..]
    {
      if endIdx - startIdx <= 0 {
        return [];
      }
      r := date[startIdx..startIdx + n];
      startIdx := startIdx + n;
    }

    method ReadInt() returns (x: int32)
      requires Valid() && |Unread()| >= 4
      modifies this
      ensures Valid() && date == old(date) && Value() == old(Value()).(start := old(startIdx) + 4)
      ensures x == DecodeInt(old(Unread())[..4]) && Unread() == old(Unread())[4..]
    {
      x := DecodeInt(date[startIdx..startIdx + 4]);
      assert date[startIdx..startIdx + 4] == Unread()[..4];
      startIdx := startIdx + 4;
    }

    method HasRead(n: nat)
      requires Valid() && n <= |Unread()|
      modifies this
      ensures Valid() && date == old(date) && Value() == old(Value()).(start := old(startIdx) + n)
      ensures Unread() == old(Unread())[n..]
    {
      startIdx := startIdx + n;
    }

    /** The offset of the first CR LF among the unread bytes, or -1. */
    method FindCrlf() returns (idx: int)
      requires Valid()
      ensures idx == FirstCrlf(Unread())
    {
      var n := endIdx - startIdx;
      if n < 2 {
        return -1;
      }
      for i := 0 to n - 1
        invariant forall k :: 0 <= k < i ==> !CrlfAt(Unread(), k)
      {
        if date[startIdx + i] == CR && date[startIdx + i + 1] == LF {
          assert CrlfAt(Unread(), i);
          return i;
        }
      }
      return -1;
    }
  }
}
