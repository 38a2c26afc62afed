/** The frame codec: `[version:1][type:1][length:4][payload:N]`, big-endian. */
module Wire {
  import opened Prelude

  const PROTOCOL_VERSION: byte := 1
  const HEADER_SIZE: nat := 6
  const MAX_PAYLOAD_SIZE: nat := 4 * 1024 * 1024

  const MSG_EVENT: byte := 0x0A
  const MSG_HISTORY: byte := 0x19
  const MSG_HISTORY_END: byte := 0x1A

  datatype Frame = Frame(version: byte, kind: byte, payload: seq<byte>)

  datatype WireError = ShortRead | VersionMismatch | PayloadTooLarge | ReadFailed | WriteFailed

  datatype Decoded = Got(frame: Frame) | Fails(error: WireError)

  /** A frame the codec can carry from one end to the other. */
  predicate WellFormed(f: Frame) {
    f.version == PROTOCOL_VERSION && |f.payload| <= MAX_PAYLOAD_SIZE
  }

  function PutUint32(n: nat): seq<byte>
    requires n < 0x1_0000_0000
  {
    [n / 0x100_0000, n / 0x1_0000 % 256, n / 256 % 256, n % 256]
  }

  function Uint32(s: seq<byte>): nat
    requires |s| == 4
  {
    s[0] as int * 0x100_0000 + s[1] as int * 0x1_0000 + s[2] as int * 256 + s[3] as int
  }

  lemma Uint32OfPut(n: nat)
    requires n < 0x1_0000_0000
    ensures Uint32(PutUint32(n)) == n
  {
    var y := n / 256;
    var x := y / 256;
    assert n / 0x1_0000 == x && n / 0x100_0000 == x / 256;
    assert n == y * 256 + n % 256 && y == x * 256 + y % 256 && x == x / 256 * 256 + x % 256;
  }

  lemma PutOfUint32(s: seq<byte>)
    requires |s| == 4
    ensures Uint32(s) < 0x1_0000_0000
    ensures PutUint32(Uint32(s)) == s
  {
    var a, b, c, d := s[0] as int, s[1] as int, s[2] as int, s[3] as int;
    Digit(a * 0x1_0000 + b * 256 + c, d);
    Digit(a * 256 + b, c);
    Digit(a, b);
    High(a, b * 0x1_0000 + c * 256 + d, 0x100_0000);
    High(a * 256 + b, c * 256 + d, 0x1_0000);
  }

  lemma Digit(high: nat, low: nat)
    requires low < 256
    ensures (high * 256 + low) / 256 == high && (high * 256 + low) % 256 == low
  {
  }

  lemma High(high: nat, low: nat, unit: nat)
    requires low < unit && (unit == 0x1_0000 || unit == 0x100_0000)
    ensures (high * unit + low) / unit == high
  {
  }

  /** The bytes of one frame. */
  function Bytes(f: Frame): seq<byte>
    requires |f.payload| <= MAX_PAYLOAD_SIZE
  {
    [f.version, f.kind] + PutUint32(|f.payload|) + f.payload
  }

  /** What one `Decode` makes of the bytes `s`: its result, and the bytes it leaves unread. */
  function DecodeBytes(s: seq<byte>): (Decoded, seq<byte>)
  {
    if |s| < HEADER_SIZE then (Fails(ShortRead), [])
    else if s[0] != PROTOCOL_VERSION then (Fails(VersionMismatch), s[6..])
    else
      var n := Uint32(s[2..6]);
      if n > MAX_PAYLOAD_SIZE then (Fails(PayloadTooLarge), s[6..])
      else if |s| - 6 < n then (Fails(ShortRead), [])
      else (Got(Frame(s[0], s[1], s[6..6 + n])), s[6 + n..])
  }

  lemma BytesShape(f: Frame)
    requires |f.payload| <= MAX_PAYLOAD_SIZE
    ensures |Bytes(f)| == 6 + |f.payload|
    ensures Bytes(f)[0] == f.version && Bytes(f)[1] == f.kind
    ensures Uint32(Bytes(f)[2..6]) == |f.payload| && Bytes(f)[6..] == f.payload
  {
    Uint32OfPut(|f.payload|);
    assert Bytes(f)[2..6] == PutUint32(|f.payload|);
  }

  /** The six header bytes: version, kind, and the payload length with its most significant byte first. */
  lemma HeaderBytes(f: Frame)
    requires |f.payload| <= MAX_PAYLOAD_SIZE
    ensures |Bytes(f)| == 6 + |f.payload| && Bytes(f)[0] == f.version && Bytes(f)[1] == f.kind
    ensures Bytes(f)[2] as int * 16777216 + Bytes(f)[3] as int * 65536 + Bytes(f)[4] as int * 256 + Bytes(f)[5] as int
            == |f.payload|
  {
    BytesShape(f);
    var length := Bytes(f)[2..6];
    assert length[0] == Bytes(f)[2] && length[1] == Bytes(f)[3] && length[2] == Bytes(f)[4] && length[3] == Bytes(f)[5];
    hide Bytes, PutUint32;
  }

  /** A written frame reads back as itself, and the bytes after it stay unread. A frame of another
      version is written all the same, and refused by the reader. */
  lemma RoundTrip(f: Frame, rest: seq<byte>)
    requires |f.payload| <= MAX_PAYLOAD_SIZE
    ensures WellFormed(f) ==> DecodeBytes(Bytes(f) + rest) == (Got(f), rest)
    ensures f.version != PROTOCOL_VERSION ==> DecodeBytes(Bytes(f) + rest).0 == Fails(VersionMismatch)
  {
    BytesShape(f);
    var s, n := Bytes(f) + rest, |f.payload|;
    SliceOfPrefix(Bytes(f), rest, 2, 6);
    if WellFormed(f) {
      SliceOfPrefix(Bytes(f), rest, 6, 6 + n);
      assert Bytes(f)[6..6 + n] == f.payload;
      assert s[6 + n..] == rest;
    }
  }

  /** Whatever decodes was a frame: the accepted bytes are exactly the encoding of the result. */
  lemma DecodedWasEncoded(s: seq<byte>)
    requires DecodeBytes(s).0.Got?
    ensures WellFormed(DecodeBytes(s).0.frame)
    ensures s == Bytes(DecodeBytes(s).0.frame) + DecodeBytes(s).1
  {
    var n := Uint32(s[2..6]);
    PutOfUint32(s[2..6]);
    var f := DecodeBytes(s).0.frame;
    assert f.payload == s[6..6 + n] && |f.payload| == n;
    assert s == [s[0], s[1]] + s[2..6] + s[6..6 + n] + s[6 + n..];
  }

  /** Every strict prefix of a frame reads as `ErrShortRead`. */
  lemma StrictPrefixIsShort(f: Frame, k: nat)
    requires WellFormed(f) && k < |Bytes(f)|
    ensures DecodeBytes(Bytes(f)[..k]) == (Fails(ShortRead), [])
  {
    BytesShape(f);
    var s := Bytes(f)[..k];
    if k >= 6 {
      assert s[2..6] == Bytes(f)[2..6];
    }
  }

  /** Conversely, `ErrShortRead` means a header cut short or a strict prefix of some frame: more
      bytes could still complete it. */
  lemma ShortReadExactly(s: seq<byte>)
    ensures DecodeBytes(s).0 == Fails(ShortRead) <==>
            |s| < HEADER_SIZE || (exists f: Frame :: WellFormed(f) && |s| < |Bytes(f)| && s == Bytes(f)[..|s|])
  {
    if |s| >= HEADER_SIZE && DecodeBytes(s).0 == Fails(ShortRead) {
      var n := Uint32(s[2..6]);
      PutOfUint32(s[2..6]);
      var pad := Zeros(n - (|s| - 6));
      var f := Frame(s[0], s[1], s[6..] + pad);
      assert s == [s[0], s[1]] + s[2..6] + s[6..];
      assert Bytes(f) == s + pad;
      assert s == Bytes(f)[..|s|];
    }
    forall f: Frame | WellFormed(f) && |s| < |Bytes(f)| && s == Bytes(f)[..|s|]
      ensures DecodeBytes(s).0 == Fails(ShortRead)
    {
      StrictPrefixIsShort(f, |s|);
    }
  }

  /** The other two errors, by the header bytes: another version, or a declared length over 4 MiB. */
  lemma HeaderErrorsExactly(s: seq<byte>)
    ensures DecodeBytes(s).0 == Fails(VersionMismatch) <==> |s| >= 6 && s[0] != 1
    ensures DecodeBytes(s).0 == Fails(PayloadTooLarge) <==>
            && |s| >= 6 && s[0] == 1
            && s[2] as int * 16777216 + s[3] as int * 65536 + s[4] as int * 256 + s[5] as int > 4194304
  {
    if |s| >= 6 {
      var length := s[2..6];
      assert length[0] == s[2] && length[1] == s[3] && length[2] == s[4] && length[3] == s[5];
    }
  }

  function Zeros(n: nat): (s: seq<byte>)
    ensures |s| == n
  {
    if n == 0 then [] else [0] + Zeros(n - 1)
  }

  predicate AllWellFormed(fs: seq<Frame>) {
    forall i :: 0 <= i < |fs| ==> WellFormed(fs[i])
  }

  /** The wire after writing every frame of `fs`. */
  function AllBytes(fs: seq<Frame>): seq<byte>
    requires AllWellFormed(fs)
  {
    if fs == [] then [] else Bytes(fs[0]) + AllBytes(fs[1..])
  }

  lemma {:induction false} AllBytesAppend(a: seq<Frame>, b: seq<Frame>)
    requires AllWellFormed(a) && AllWellFormed(b)
    ensures AllWellFormed(a + b) && AllBytes(a + b) == AllBytes(a) + AllBytes(b)
  {
    if a == [] {
      assert a + b == b;
    } else {
      AllBytesAppend(a[1..], b);
      assert (a + b)[0] == a[0] && (a + b)[1..] == a[1..] + b;
      Assoc(Bytes(a[0]), AllBytes(a[1..]), AllBytes(b));
    }
  }

  /** Everything a read loop sees on a connection: the frames up to the first error, the error, and
      the bytes from which it arose. */
  datatype Session = Session(frames: seq<Frame>, error: WireError, from: seq<byte>)

  function DecodeAll(s: seq<byte>): Session
    decreases |s|
  {
    match DecodeBytes(s)
    case (Fails(e), _) => Session([], e, s)
    case (Got(f), rest) =>
      DecodedLeaves(s);
      var t := DecodeAll(rest);
      Session([f] + t.frames, t.error, t.from)
  }

  lemma DecodedLeaves(s: seq<byte>)
    ensures DecodeBytes(s).0.Got? ==> |DecodeBytes(s).1| < |s|
  {
  }

  lemma DecodeAllStep(f: Frame, rest: seq<byte>)
    requires WellFormed(f)
    ensures DecodeAll(Bytes(f) + rest) ==
            Session([f] + DecodeAll(rest).frames, DecodeAll(rest).error, DecodeAll(rest).from)
  {
    RoundTrip(f, rest);
  }

  /** Frames written one after the other decode to the same frames, whatever follows them. */
  lemma {:induction false} FramesReadBack(fs: seq<Frame>, rest: seq<byte>)
    requires AllWellFormed(fs)
    ensures DecodeAll(AllBytes(fs) + rest) ==
            Session(fs + DecodeAll(rest).frames, DecodeAll(rest).error, DecodeAll(rest).from)
  {
    hide Bytes, DecodeBytes;
    if fs == [] {
      assert AllBytes(fs) + rest == rest;
      assert fs + DecodeAll(rest).frames == DecodeAll(rest).frames;
    } else {
      FramesReadBack(fs[1..], rest);
      DecodeAllStep(fs[0], AllBytes(fs[1..]) + rest);
      Assoc(Bytes(fs[0]), AllBytes(fs[1..]), rest);
      Assoc([fs[0]], fs[1..], DecodeAll(rest).frames);
      assert fs == [fs[0]] + fs[1..];
    }
  }

  /** Any byte stream splits into the frames decoded from it and the bytes that failed. */
  lemma {:induction false} StreamSplits(s: seq<byte>)
    ensures AllWellFormed(DecodeAll(s).frames)
    ensures s == AllBytes(DecodeAll(s).frames) + DecodeAll(s).from
    ensures DecodeBytes(DecodeAll(s).from).0 == Fails(DecodeAll(s).error)
    decreases |s|
  {
    var d := DecodeBytes(s);
    if d.0.Got? {
      DecodedLeaves(s);
      DecodedWasEncoded(s);
      StreamSplits(d.1);
      var t := DecodeAll(d.1);
      assert DecodeAll(s).frames == [d.0.frame] + t.frames;
      assert DecodeAll(s).frames[1..] == t.frames;
      Assoc(Bytes(d.0.frame), AllBytes(t.frames), t.from);
    }
  }

  /** Concatenated frames decode uniquely: two frame sequences on the same wire are the same. */
  lemma FramesAreUnique(fs: seq<Frame>, gs: seq<Frame>)
    requires AllWellFormed(fs) && AllWellFormed(gs)
    requires AllBytes(fs) == AllBytes(gs)
    ensures fs == gs
  {
    FramesReadBack(fs, []);
    FramesReadBack(gs, []);
    assert DecodeAll([]).frames == [];
    assert AllBytes(fs) + [] == AllBytes(fs) && AllBytes(gs) + [] == AllBytes(gs);
    assert fs + [] == fs && gs + [] == gs;
  }

  /** Cutting a connection at any byte loses no frame written in full before the cut, invents none,
      and always surfaces as `ErrShortRead`. */
  lemma {:induction false} CutConnection(fs: seq<Frame>, k: nat) returns (whole: nat)
    requires AllWellFormed(fs) && k <= |AllBytes(fs)|
    ensures whole <= |fs|
    ensures |AllBytes(fs[..whole])| <= k
    ensures whole < |fs| ==> k < |AllBytes(fs[..whole + 1])|
    ensures DecodeAll(AllBytes(fs)[..k]).frames == fs[..whole]
    ensures DecodeAll(AllBytes(fs)[..k]).error == ShortRead
  {
    hide DecodeBytes, Bytes;
    if fs == [] {
      whole := 0;
      ShortReadExactly([]);
    } else if k < |Bytes(fs[0])| {
      whole := 0;
      SliceOfPrefix(Bytes(fs[0]), AllBytes(fs[1..]), 0, k);
      StrictPrefixIsShort(fs[0], k);
      assert AllBytes(fs)[..k] == Bytes(fs[0])[..k];
      assert fs[..1] == [fs[0]];
      assert fs[..1][1..] == [];
    } else {
      var m := |Bytes(fs[0])|;
      var w := CutConnection(fs[1..], k - m);
      whole := w + 1;
      assert AllBytes(fs)[..k] == Bytes(fs[0]) + AllBytes(fs[1..])[..k - m];
      DecodeAllStep(fs[0], AllBytes(fs[1..])[..k - m]);
      TakeOne(fs, whole);
      if whole < |fs| {
        TakeOne(fs, whole + 1);
      }
    }
  }

  lemma TakeOne(fs: seq<Frame>, n: nat)
    requires AllWellFormed(fs) && 0 < n <= |fs|
    ensures fs[..n] == [fs[0]] + fs[1..][..n - 1]
    ensures AllBytes(fs[..n]) == Bytes(fs[0]) + AllBytes(fs[1..][..n - 1])
  {
    assert fs[..n][1..] == fs[1..][..n - 1];
  }

  /** What a connection with room for `room` more bytes takes of `s`; None is unlimited. */
  function Taken(room: Option<nat>, s: seq<byte>): seq<byte> {
    if room.None? || |s| <= room.value then s else s[..room.value]
  }

  function Left(room: Option<nat>, n: nat): Option<nat> {
    if room.None? then None else if n <= room.value then Some(room.value - n) else Some(0)
  }

  lemma TakenAppend(room: Option<nat>, a: seq<byte>, b: seq<byte>)
    ensures Taken(room, a + b) == Taken(room, a) + Taken(Left(room, |a|), b)
    ensures Left(room, |a + b|) == Left(Left(room, |a|), |b|)
  {
    if room.Some? && |a| < room.value < |a + b| {
      assert (a + b)[..room.value] == a + b[..room.value - |a|];
    } else if room.Some? && room.value <= |a| {
      assert Taken(room, a + b) == Taken(room, a) + [];
    }
  }

  /** One direction of a connection, written at the end and consumed at the front. Writing fails once
      `room` is used up; reading past the end gives EOF, or another error if `broken`. */
  class Stream {
    var bytes: seq<byte>
    var room: Option<nat>
    const broken: bool

    constructor (room: Option<nat>, broken: bool)
      ensures bytes == [] && this.room == room && this.broken == broken
    {
      bytes, this.room, this.broken := [], room, broken;
    }

    /** A failing write has sent what there was room for. */
    method Write(p: seq<byte>) returns (ok: bool)
      modifies this
      ensures ok <==> Taken(old(room), p) == p
      ensures bytes == old(bytes) + Taken(old(room), p) && room == Left(old(room), |p|)
    {
      if room.None? {
        bytes := bytes + p;
        return true;
      }
      ok := |p| <= room.value;
      var n := if ok then |p| else room.value;
      bytes, room := bytes + p[..n], Some(room.value - n);
    }

    /** `io.ReadFull`: fills `p`, or consumes what there is and fails. */
    method ReadFull(p: array<byte>) returns (ok: bool)
      modifies this`bytes, p
      ensures ok <==> p.Length <= |old(bytes)|
      ensures ok ==> p[..] == old(bytes)[..p.Length] && bytes == old(bytes)[p.Length..]
      ensures !ok ==> bytes == []
    {
      var n := if p.Length <= |bytes| then p.Length else |bytes|;
      for i := 0 to n
        invariant bytes == old(bytes)
        invariant forall j :: 0 <= j < i ==> p[j] == bytes[j]
      {
        p[i] := bytes[i];
      }
      ok := n == p.Length;
      bytes := bytes[n..];
    }
  }

  /** Writes nothing at all for an oversized payload, otherwise exactly the frame's bytes, and up to
      where the connection fails if it does: then the peer has a strict prefix of the frame. */
  method Encode(w: Stream, f: Frame) returns (error: Option<WireError>)
    modifies w
    ensures |f.payload| > MAX_PAYLOAD_SIZE ==>
              error == Some(PayloadTooLarge) && w.bytes == old(w.bytes) && w.room == old(w.room)
    ensures |f.payload| <= MAX_PAYLOAD_SIZE ==>
              && w.bytes == old(w.bytes) + Taken(old(w.room), Bytes(f))
              && w.room == Left(old(w.room), |Bytes(f)|)
              && error == if Taken(old(w.room), Bytes(f)) == Bytes(f) then None else Some(WriteFailed)
  {
    if |f.payload| > MAX_PAYLOAD_SIZE {
      return Some(PayloadTooLarge);
    }
    var header := new byte[6];
    header[0], header[1] := f.version, f.kind;
    var n := |f.payload|;
    header[2], header[3], header[4], header[5] := n / 0x100_0000, n / 0x1_0000 % 256, n / 256 % 256, n % 256;
    assert header[..] == [f.version, f.kind] + PutUint32(n);
    assert Bytes(f) == header[..] + f.payload;
    TakenAppend(w.room, header[..], f.payload);
    Assoc(w.bytes, Taken(w.room, header[..]), Taken(Left(w.room, 6), f.payload));
    hide Bytes, PutUint32;
    var ok := w.Write(header[..]);
    if !ok {
      return Some(WriteFailed);
    }
    if |f.payload| > 0 {
      ok := w.Write(f.payload);
      if !ok {
        return Some(WriteFailed);
      }
    }
    return None;
  }

  /** What a failing read is reported as. */
  function Surface(d: Decoded, broken: bool): Decoded {
    if broken && d == Fails(ShortRead) then Fails(ReadFailed) else d
  }

  method Decode(r: Stream) returns (d: Decoded)
    modifies r`bytes
    ensures d == Surface(DecodeBytes(old(r.bytes)).0, r.broken)
    ensures r.bytes == DecodeBytes(old(r.bytes)).1
  {
    var header := new byte[6];
    var ok := r.ReadFull(header);
    if !ok {
      return Fails(if r.broken then ReadFailed else ShortRead);
    }
    ghost var s := old(r.bytes);
    assert header[..] == s[..6];
    assert header[2..6] == s[2..6];
    if header[0] != PROTOCOL_VERSION {
      return Fails(VersionMismatch);
    }
    var n := Uint32(header[2..6]);
    if n > MAX_PAYLOAD_SIZE {
      return Fails(PayloadTooLarge);
    }
    var payload := new byte[n];
    if n > 0 {
      ok := r.ReadFull(payload);
      if !ok {
        return Fails(if r.broken then ReadFailed else ShortRead);
      }
      assert s[6..][..n] == s[6..6 + n] && s[6..][n..] == s[6 + n..];
    }
    assert payload[..] == s[6..6 + n];
    return Got(Frame(header[0], header[1], payload[..]));
  }
}
