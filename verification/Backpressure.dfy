/** The output buffer: a FIFO byte queue over recycled backing arrays, with
    watermark backpressure (internal/session/backpressure.go). */
module Backpressure {
  import opened Prelude

  // ----- Go slices: a window on a shared backing array -----

  /** `arr[off..off + len]`; the capacity reaches to the end of the array. */
  datatype Slice = Nil | Slice(arr: array<byte>, off: nat, len: nat)

  predicate Fits(s: Slice) {
    s.Slice? ==> s.off + s.len <= s.arr.Length
  }

  function Len(s: Slice): nat {
    if s.Nil? then 0 else s.len
  }

  ghost function Arrays(s: Slice): set<array<byte>> {
    if s.Nil? then {} else {s.arr}
  }

  ghost function Bytes(s: Slice): seq<byte>
    requires Fits(s)
    reads Arrays(s)
  {
    if s.Nil? then [] else s.arr[s.off..s.off + s.len]
  }

  /** copy(target[at:], p) */
  method CopyInto(target: array<byte>, at: nat, p: seq<byte>)
    requires at + |p| <= target.Length
    modifies target
    ensures target[..] == old(target[..at]) + p + old(target[at + |p|..])
  {
    for i := 0 to |p|
      invariant target[..] == old(target[..at]) + p[..i] + old(target[at + i..])
    {
      target[at + i] := p[i];
    }
  }

  /** append(s, p...): in place when the capacity allows, else into a new array
      of some larger capacity. `p` is read before anything is written. */
  method Append(s: Slice, p: seq<byte>) returns (r: Slice)
    requires Fits(s)
    modifies Arrays(s)
    ensures Fits(r) && Bytes(r) == old(Bytes(s)) + p
    ensures s.Slice? && s.off + s.len + |p| <= s.arr.Length ==> r == s.(len := s.len + |p|)
    ensures r.Slice? && r.arr !in Arrays(s) ==> fresh(r.arr)
    ensures r.Nil? ==> s.Nil?
  {
    if p == [] {
      return s;
    }
    if s.Slice? && s.off + s.len + |p| <= s.arr.Length {
      CopyInto(s.arr, s.off + s.len, p);
      r := Slice(s.arr, s.off, s.len + |p|);
      assert s.arr[..s.off + s.len] == old(s.arr[..s.off + s.len]);
    } else {
      var whole := (if s.Nil? then [] else s.arr[s.off..s.off + s.len]) + p;
      var cap: nat :| |whole| <= cap;
      var target := new byte[cap](_ => 0);
      CopyInto(target, 0, whole);
      r := Slice(target, 0, |whole|);
      assert target[..|whole|] == whole;
    }
  }

  // ----- The watermark gauge, as a value -----

  datatype Gauge = Gauge(len: nat, paused: bool)

  datatype Op = Put(n: nat) | Drain | DrainN(n: nat)

  function OnWrite(high: int, g: Gauge, n: nat): Gauge {
    Gauge(g.len + n, g.paused || g.len + n >= high)
  }

  /** checkResume after a read left `remaining` bytes. */
  function OnRead(low: int, g: Gauge, remaining: nat): Gauge {
    Gauge(remaining, g.paused && remaining >= low)
  }

  function GaugeStep(high: int, low: int, g: Gauge, op: Op): Gauge {
    match op
    case Put(n) => OnWrite(high, g, n)
    case Drain => if g.len == 0 then g else OnRead(low, g, 0)
    case DrainN(n) => if g.len == 0 then g else OnRead(low, g, if n >= g.len then 0 else g.len - n)
  }

  function GaugeRun(high: int, low: int, ops: seq<Op>): Gauge {
    if ops == [] then Gauge(0, false)
    else GaugeStep(high, low, GaugeRun(high, low, ops[..|ops| - 1]), ops[|ops| - 1])
  }

  predicate Hysteresis(high: int, low: int, g: Gauge) {
    (!g.paused ==> g.len < high) && (g.paused ==> g.len >= low)
  }

  lemma {:induction false} HysteresisKept(high: int, low: int, ops: seq<Op>)
    requires 0 < high && low <= high
    ensures Hysteresis(high, low, GaugeRun(high, low, ops))
    decreases |ops|
  {
    if ops != [] {
      HysteresisKept(high, low, ops[..|ops| - 1]);
    }
  }

  /** "Not paused below high, paused down to low" holds of every run exactly
      when the watermarks are in order. */
  lemma HysteresisExactly(high: int, low: int)
    ensures (forall ops :: Hysteresis(high, low, GaugeRun(high, low, ops))) <==> 0 < high && low <= high
  {
    if 0 < high && low <= high {
      forall ops ensures Hysteresis(high, low, GaugeRun(high, low, ops)) {
        HysteresisKept(high, low, ops);
      }
    } else if high <= 0 {
      assert !Hysteresis(high, low, GaugeRun(high, low, []));
    } else {
      var ops := [Put(high)];
      assert ops[..0] == [];
      assert GaugeRun(high, low, ops) == Gauge(high, true);
    }
  }

  /** Every full drain of a non-empty buffer resumes it exactly when low is positive. */
  lemma FullDrainResumesExactly(high: int, low: int)
    ensures (forall ops :: GaugeRun(high, low, ops).len > 0 ==>
              !GaugeStep(high, low, GaugeRun(high, low, ops), Drain).paused) <==> 0 < low
  {
    if low <= 0 {
      var n := if high > 1 then high else 1;
      var ops := [Put(n)];
      assert ops[..0] == [];
      assert GaugeRun(high, low, ops) == Gauge(n, true);
    }
  }

  const DEFAULT_HIGH := 4 * 1024 * 1024
  const DEFAULT_LOW := 2 * 1024 * 1024

  /** Service.Create fills in each missing watermark on its own. */
  function Watermarks(optHigh: int, optLow: int): (int, int) {
    (if optHigh <= 0 then DEFAULT_HIGH else optHigh, if optLow <= 0 then DEFAULT_LOW else optLow)
  }

  /** So a session keeps the hysteresis exactly when the effective low does not
      exceed the effective high; setting HighWatermark alone below 2 MiB breaks it. */
  lemma SessionHysteresisExactly(optHigh: int, optLow: int)
    ensures Watermarks(optHigh, optLow) ==
            (if optHigh > 0 then optHigh else 0x40_0000, if optLow > 0 then optLow else 0x20_0000)
    ensures var (h, l) := Watermarks(optHigh, optLow);
            (forall ops :: Hysteresis(h, l, GaugeRun(h, l, ops))) <==> l <= h
    ensures var (h, l) := Watermarks(1024, 0); !(forall ops :: Hysteresis(h, l, GaugeRun(h, l, ops)))
  {
    var (h, l) := Watermarks(optHigh, optLow);
    HysteresisExactly(h, l);
    var (h', l') := Watermarks(1024, 0);
    HysteresisExactly(h', l');
  }

  // ----- The buffer object -----

  class Buffer {
    var data: Slice
    var inFlight: Slice  // handed out by the most recent full drain
    var spare: Slice     // handed out by the full drain before that
    var paused: bool
    const high: int
    const low: int
    /** Every full drain: the slice handed out and the bytes it then held. */
    ghost var drains: seq<(Slice, seq<byte>)>
    /** Whether Write has been called since the last full drain. */
    ghost var wroteSince: bool

    ghost function Repr(): set<array<byte>>
      reads this
    {
      Arrays(data) + Arrays(inFlight) + Arrays(spare)
    }

    ghost predicate Distinct()
      reads this
    {
      Arrays(data) !! Arrays(inFlight) !! Arrays(spare)
    }

    /** The newest drained slice still holds its bytes, and so does the one
        before it until the first Write after the newest drain. */
    ghost predicate LoansKept()
      requires Fits(inFlight) && Fits(spare)
      reads this, Repr()
    {
      var n := |drains|;
      && (inFlight.Slice? <==> n >= 1)
      && (n >= 1 ==> inFlight == drains[n - 1].0 && Bytes(inFlight) == drains[n - 1].1)
      && (spare.Slice? <==> n >= 2 && !wroteSince)
      && (n >= 2 && !wroteSince ==> spare == drains[n - 2].0 && Bytes(spare) == drains[n - 2].1)
    }

    ghost predicate Valid()
      reads this, Repr()
    {
      && Fits(data) && Fits(inFlight) && Fits(spare)
      && Distinct()
      && LoansKept()
      && (drains != [] && !wroteSince ==> Len(data) == 0)
    }

    ghost function Contents(): seq<byte>
      requires Fits(data)
      reads this, Arrays(data)
    {
      Bytes(data)
    }

    ghost function State(): Gauge
      reads this
    {
      Gauge(Len(data), paused)
    }

    constructor (high: int, low: int)
      ensures Valid() && Contents() == [] && State() == Gauge(0, false)
      ensures this.high == high && this.low == low && drains == [] && Repr() == {}
    {
      data, inFlight, spare, paused := Nil, Nil, Nil, false;
      this.high, this.low := high, low;
      drains, wroteSince := [], false;
    }

    /** An empty buffer takes the spare array back before appending. */
    method Reclaim()
      requires Valid()
      modifies this
      ensures Valid() && spare == Nil && wroteSince && drains == old(drains)
      ensures Contents() == old(Contents()) && State() == old(State()) && inFlight == old(inFlight)
      ensures data == if old(Len(data)) == 0 && old(spare).Slice? then old(spare).(len := 0) else old(data)
    {
      if Len(data) == 0 && spare.Slice? {
        data, spare := Slice(spare.arr, spare.off, 0), Nil;
      }
      wroteSince := true;
    }

    method Grow(p: seq<byte>)
      requires Valid() && spare == Nil && wroteSince
      modifies this`data, Arrays(data)
      ensures Valid() && Contents() == old(Contents()) + p
      ensures fresh(Repr() - old(Repr()))
      ensures old(data).Slice? && old(data).off + old(data).len + |p| <= old(data).arr.Length ==>
                data == old(data).(len := old(data).len + |p|)
    {
      var d := Append(data, p);
      assert Arrays(d) !! Arrays(inFlight);
      assert Bytes(inFlight) == old(Bytes(inFlight));
      data := d;
      assert LoansKept();
    }

    method Write(p: seq<byte>) returns (n: nat)
      requires Valid()
      modifies this, Arrays(data), Arrays(spare)
      ensures Valid() && n == |p| && fresh(Repr() - old(Repr()))
      ensures Contents() == old(Contents()) + p
      ensures State() == OnWrite(high, old(State()), |p|)
      ensures drains == old(drains) && wroteSince && inFlight == old(inFlight)
      ensures old(Len(data)) == 0 && old(spare).Slice? && old(spare).off + |p| <= old(spare).arr.Length ==>
                data == old(spare).(len := |p|)  // recycled: no allocation
    {
      hide LoansKept, Distinct;
      Reclaim();
      Grow(p);
      CheckPause();
      n := |p|;
    }

    method CheckPause()
      requires Valid()
      modifies this`paused
      ensures Valid() && Contents() == old(Contents()) && Repr() == old(Repr())
      ensures paused == (old(paused) || Len(data) >= high)
    {
      if Len(data) >= high {
        paused := true;
      }
    }

    /** The buffer hands over its array and rotates the chain data -> inFlight -> spare. */
    method HandOver() returns (out: Slice)
      requires Valid() && Contents() != []
      modifies this
      ensures Valid() && Fits(out) && Bytes(out) == old(Contents()) && data == Nil
      ensures drains == old(drains) + [(out, old(Contents()))] && !wroteSince && Repr() <= old(Repr())
      ensures paused == old(paused) && inFlight == out && spare == old(inFlight)
    {
      out := data;
      drains, wroteSince := drains + [(data, Bytes(data))], false;
      spare, inFlight, data := inFlight, data, Nil;
    }

    method Read() returns (out: Slice)
      requires Valid()
      modifies this
      ensures Valid() && Fits(out) && Bytes(out) == old(Contents()) && Contents() == []
      ensures State() == GaugeStep(high, low, old(State()), Drain)
      ensures old(Contents()) == [] ==> out == Nil && drains == old(drains) && wroteSince == old(wroteSince)
      ensures old(Contents()) != [] ==>
                drains == old(drains) + [(out, old(Contents()))] && !wroteSince && Repr() <= old(Repr())
                && inFlight == out && spare == old(inFlight)
    {
      if Len(data) == 0 {
        return Nil;
      }
      hide LoansKept, Distinct;
      out := HandOver();
      CheckResume(0);
    }

    /** A partial read copies the prefix out and keeps the rest of the same array. */
    method CopyOut(n: nat) returns (out: Slice)
      requires Valid() && n < |Contents()|
      modifies this`data
      ensures Valid() && out.Slice? && fresh(out.arr) && Fits(out)
      ensures Bytes(out) == old(Contents())[..n] && Contents() == old(Contents())[n..]
      ensures Repr() == old(Repr()) && Len(data) == old(Len(data)) - n
    {
      var copy := new byte[n](_ => 0);
      CopyInto(copy, 0, data.arr[data.off..data.off + n]);
      assert copy[..n] == copy[..];
      out := Slice(copy, 0, n);
      data := Slice(data.arr, data.off + n, data.len - n);
    }

    /** Asking a non-empty buffer for a negative count panics in make. */
    method ReadN(n: int) returns (out: Slice)
      requires Valid() && (Contents() != [] ==> 0 <= n)
      modifies this
      ensures Valid() && Fits(out)
      ensures old(Contents()) == [] ==> out == Nil && State() == old(State()) && Contents() == [] && drains == old(drains)
      ensures old(Contents()) != [] ==>
                && Bytes(out) == old(Contents())[..Min(n, |old(Contents())|)]
                && Contents() == old(Contents())[Min(n, |old(Contents())|)..]
                && State() == GaugeStep(high, low, old(State()), DrainN(n))
      ensures old(Contents()) != [] && n >= |old(Contents())| ==>
                drains == old(drains) + [(out, old(Contents()))] && !wroteSince
      ensures old(Contents()) != [] && n < |old(Contents())| ==>
                drains == old(drains) && wroteSince == old(wroteSince) && Repr() == old(Repr())
                && out.Slice? && fresh(out.arr)  // a private copy
    {
      if Len(data) == 0 {
        return Nil;
      }
      hide LoansKept, Distinct;
      if n >= Len(data) {
        out := Read();  // the same statements as a full Read
        assert old(Contents())[..|old(Contents())|] == old(Contents());
        return;
      }
      out := ReadPart(n);
    }

    method ReadPart(n: nat) returns (out: Slice)
      requires Valid() && n < |Contents()|
      modifies this`data, this`paused
      ensures Valid() && out.Slice? && fresh(out.arr) && Fits(out)
      ensures Bytes(out) == old(Contents())[..n] && Contents() == old(Contents())[n..]
      ensures State() == OnRead(low, old(State()), old(Len(data)) - n) && Repr() == old(Repr())
    {
      hide LoansKept, Distinct, Repr;
      out := CopyOut(n);
      CheckResume(Len(data));
    }

    method CheckResume(remaining: nat)
      requires Valid()
      modifies this`paused
      ensures Valid() && Contents() == old(Contents()) && Repr() == old(Repr())
      ensures paused == (old(paused) && remaining >= low)
    {
      if paused && remaining < low {
        paused := false;
      }
    }
  }

  /** The loan is exactly that long: the second Write after a drain may reuse the
      drained slice, so its holder sees other bytes. */
  method LoanEndsAtSecondWrite() returns (s: Slice, handed: seq<byte>)
    ensures Fits(s) && handed == [1] && Bytes(s) == [3]
  {
    hide Buffer.LoansKept, Buffer.Distinct;
    var b := new Buffer(10, 5);
    var _ := b.Write([1]);
    s := b.Read();
    handed := s.arr[s.off..s.off + s.len];
    var _ := b.Write([2]);
    var second := b.Read();
    var _ := b.Write([3]);
    assert b.data == s;
  }
}
