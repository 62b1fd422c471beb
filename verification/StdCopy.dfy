/** The multiplexed stream of `internal/docker/stdcopy/stdcopy.go`: the writer that puts an 8-byte
    header before every payload, and the copier that takes the frames apart again. */
module StdCopy {
  import opened Wrappers

  type byte = x: int | 0 <= x < 256

  const PREFIX_LEN: nat := 8
  const STARTING_BUF_LEN: nat := 32 * 1024 + PREFIX_LEN + 1
  const TWO_TO_THE_32: nat := 0x1_0000_0000

  // ---------------------------------------------------------------------------------------------
  // The wire format
  // ---------------------------------------------------------------------------------------------

  /** One write on a stream: 0 is stdin, 1 stdout, 2 stderr. */
  datatype Frame = Frame(stream: byte, payload: seq<byte>)

  /** A big-endian 32-bit unsigned integer. */
  function BigEndian(n: nat): (b: seq<byte>)
    requires n < TWO_TO_THE_32
    ensures |b| == 4
  {
    [n / 0x100_0000, n / 0x1_0000 % 0x100, n / 0x100 % 0x100, n % 0x100]
  }

  function Uint32(b: seq<byte>): (n: nat)
    requires |b| == 4
    ensures n < TWO_TO_THE_32
  {
    b[0] as int * 0x100_0000 + b[1] as int * 0x1_0000 + b[2] as int * 0x100 + b[3]
  }

  lemma Uint32OfBigEndian(n: nat)
    requires n < TWO_TO_THE_32
    ensures Uint32(BigEndian(n)) == n
  {
    var q := n / 0x100;
    assert n == q * 0x100 + n % 0x100;
    var r := q / 0x100;
    assert q == r * 0x100 + q % 0x100;
    assert n / 0x1_0000 == r && r == n / 0x100_0000 * 0x100 + r % 0x100;
  }

  /** The first of two equally long byte strings comes first in dictionary order. */
  ghost predicate Precedes(a: seq<byte>, b: seq<byte>)
    requires |a| == |b|
  {
    exists i :: 0 <= i < |a| && a[i] < b[i] && a[..i] == b[..i]
  }

  /** The most significant byte comes first: the order of numbers is the dictionary order of their bytes. */
  lemma BigEndianOrdered(m: nat, n: nat)
    requires m < TWO_TO_THE_32 && n < TWO_TO_THE_32
    ensures Precedes(BigEndian(m), BigEndian(n)) <==> m < n
  {
    var a, b := BigEndian(m), BigEndian(n);
    Uint32OfBigEndian(m);
    Uint32OfBigEndian(n);
    hide BigEndian;
    if Precedes(a, b) {
      var i :| 0 <= i < |a| && a[i] < b[i] && a[..i] == b[..i];
      MoreAtFirstDifference(a, b, i);
    } else if m < n {
      var i := FirstDifference(a, b);
      if b[i] < a[i] {
        MoreAtFirstDifference(b, a, i);
      }
    }
  }

  lemma MoreAtFirstDifference(a: seq<byte>, b: seq<byte>, i: nat)
    requires |a| == |b| == 4 && i < 4 && a[i] < b[i] && a[..i] == b[..i]
    ensures Uint32(a) < Uint32(b)
  {
    assert forall k :: 0 <= k < i ==> a[k] == a[..i][k] == b[..i][k] == b[k];
  }

  lemma {:induction false} FirstDifference(a: seq<byte>, b: seq<byte>) returns (i: nat)
    requires |a| == |b| && a != b
    ensures i < |a| && a[i] != b[i] && a[..i] == b[..i]
  {
    if a[0] != b[0] {
      i := 0;
    } else {
      assert a == [a[0]] + a[1..] && b == [b[0]] + b[1..];
      i := FirstDifference(a[1..], b[1..]);
      assert a[..i + 1] == [a[0]] + a[1..][..i] && b[..i + 1] == [b[0]] + b[1..][..i];
      i := i + 1;
    }
  }

  /** The bytes one write puts on the wire. The length field keeps only the low 32 bits of the
      payload's length. */
  function Encode(f: Frame): (wire: seq<byte>)
    ensures |wire| == PREFIX_LEN + |f.payload|
  {
    [f.stream, 0, 0, 0] + BigEndian(|f.payload| % TWO_TO_THE_32) + f.payload
  }

  function EncodeAll(fs: seq<Frame>): seq<byte> {
    if fs == [] then [] else Encode(fs[0]) + EncodeAll(fs[1..])
  }

  /** A write the format can carry: a known stream and a length that fits its field. */
  predicate Carried(f: Frame) {
    f.stream <= 2 && |f.payload| < TWO_TO_THE_32
  }

  /** The stream starts with a header that names a known stream, followed by as many bytes as the
      header announces. */
  predicate StartsWithFrame(s: seq<byte>) {
    |s| >= PREFIX_LEN && s[0] <= 2 && |s| >= PREFIX_LEN + Uint32(s[4..8])
  }

  /** The stream starts with a whole header that names no known stream. */
  predicate StartsWithBadHeader(s: seq<byte>) {
    |s| >= PREFIX_LEN && s[0] > 2
  }

  /** The frame at the front of a stream. */
  function FirstFrame(s: seq<byte>): Frame
    requires StartsWithFrame(s)
  {
    Frame(s[0], s[PREFIX_LEN..PREFIX_LEN + Uint32(s[4..8])])
  }

  function AfterFirstFrame(s: seq<byte>): (rest: seq<byte>)
    requires StartsWithFrame(s)
    ensures |rest| < |s|
  {
    s[PREFIX_LEN + Uint32(s[4..8])..]
  }

  /** The complete frames at the front of a stream. */
  function Frames(s: seq<byte>): seq<Frame> {
    if !StartsWithFrame(s) then [] else [FirstFrame(s)] + Frames(AfterFirstFrame(s))
  }

  /** What is left of a stream after its complete frames. */
  function Leftover(s: seq<byte>): seq<byte> {
    if !StartsWithFrame(s) then s else Leftover(AfterFirstFrame(s))
  }

  /** What a writer receives of a list of frames: the payloads of streams 0 and 1 if it is the
      standard output, those of stream 2 if it is the standard error, and all of them if it is both. */
  function Payloads(fs: seq<Frame>, out: bool, err: bool): seq<byte> {
    if fs == [] then []
    else (if (if fs[0].stream == 2 then err else out) then fs[0].payload else []) + Payloads(fs[1..], out, err)
  }

  function TotalLength(fs: seq<Frame>): nat {
    if fs == [] then 0 else |fs[0].payload| + TotalLength(fs[1..])
  }

  /** All payloads, one after the other. */
  function AllBytes(fs: seq<Frame>): seq<byte> {
    if fs == [] then [] else fs[0].payload + AllBytes(fs[1..])
  }

  lemma {:induction false} PayloadsConcat(fs: seq<Frame>, gs: seq<Frame>, out: bool, err: bool)
    ensures Payloads(fs + gs, out, err) == Payloads(fs, out, err) + Payloads(gs, out, err)
  {
    if fs == [] {
      assert fs + gs == gs;
    } else {
      assert (fs + gs)[0] == fs[0] && (fs + gs)[1..] == fs[1..] + gs;
      PayloadsConcat(fs[1..], gs, out, err);
    }
  }

  /** Standard input and output arrive on the one side, standard error on the other; a writer that is both sides
      gets everything, and nothing is lost or doubled. */
  lemma {:induction false} PayloadsBySide(fs: seq<Frame>)
    ensures (forall f :: f in fs ==> f.stream == 0 || f.stream == 1) ==>
              Payloads(fs, true, false) == AllBytes(fs) && Payloads(fs, false, true) == []
    ensures (forall f :: f in fs ==> f.stream == 2) ==>
              Payloads(fs, true, false) == [] && Payloads(fs, false, true) == AllBytes(fs)
    ensures Payloads(fs, true, true) == AllBytes(fs)
    ensures |Payloads(fs, true, false)| + |Payloads(fs, false, true)| == |AllBytes(fs)| == TotalLength(fs)
  {
    if fs == [] {
    } else {
      assert fs[0] in fs && forall f :: f in fs[1..] ==> f in fs;
      PayloadsBySide(fs[1..]);
    }
  }

  lemma {:induction false} LengthAppend(fs: seq<Frame>, f: Frame)
    ensures TotalLength(fs + [f]) == TotalLength(fs) + |f.payload|
  {
    if fs == [] {
      assert fs + [f] == [f];
    } else {
      assert (fs + [f])[0] == fs[0] && (fs + [f])[1..] == fs[1..] + [f];
      LengthAppend(fs[1..], f);
    }
  }

  // ---------------------------------------------------------------------------------------------
  // The codec laws
  // ---------------------------------------------------------------------------------------------

  lemma EncodeStartsStream(f: Frame, rest: seq<byte>)
    ensures var s := Encode(f) + rest;
            && |s| >= PREFIX_LEN && s[0] == f.stream && Uint32(s[4..8]) == |f.payload| % TWO_TO_THE_32
            && s[PREFIX_LEN..] == f.payload + rest
  {
    var s := Encode(f) + rest;
    Uint32OfBigEndian(|f.payload| % TWO_TO_THE_32);
    assert s[4..8] == BigEndian(|f.payload| % TWO_TO_THE_32);
  }

  /** A frame with its header: the stream, three bytes that mean nothing, the length, the payload. */
  ghost predicate IsFrame(wire: seq<byte>, f: Frame) {
    && |wire| == 8 + |f.payload| && |f.payload| < 0x1_0000_0000
    && wire[0] == f.stream <= 2 && wire[4..8] == BigEndian(|f.payload|) && wire[8..] == f.payload
  }

  lemma EncodeIsFrame(f: Frame)
    ensures Carried(f) <==> IsFrame(Encode(f), f)
  {
    hide BigEndian;
    if Carried(f) {
      EncodeStartsStream(f, []);
      assert Encode(f) + [] == Encode(f) && f.payload + [] == f.payload;
      assert |f.payload| % TWO_TO_THE_32 == |f.payload|;
      assert Encode(f)[4..8] == BigEndian(|f.payload|);
    }
  }

  lemma FrameParses(wire: seq<byte>, f: Frame, rest: seq<byte>)
    requires IsFrame(wire, f)
    ensures StartsWithFrame(wire + rest)
    ensures Frames(wire + rest) == [f] + Frames(rest) && Leftover(wire + rest) == Leftover(rest)
  {
    var s := wire + rest;
    Uint32OfBigEndian(|f.payload|);
    assert s[4..8] == wire[4..8];
    assert s[8..8 + |f.payload|] == wire[8..] && s[8 + |f.payload|..] == rest;
    assert FirstFrame(s) == f && AfterFirstFrame(s) == rest;
  }

  lemma CarriedFrameParses(f: Frame, rest: seq<byte>)
    requires Carried(f)
    ensures StartsWithFrame(Encode(f) + rest)
    ensures Frames(Encode(f) + rest) == [f] + Frames(rest)
    ensures Leftover(Encode(f) + rest) == Leftover(rest)
  {
    hide *;
    EncodeIsFrame(f);
    FrameParses(Encode(f), f, rest);
  }

  /** The stream can be cut into these frames and these bytes at the end. */
  ghost predicate CutInto(s: seq<byte>, fs: seq<Frame>, rest: seq<byte>)
    decreases |fs|
  {
    if fs == [] then s == rest
    else exists end :: 0 <= end <= |s| && IsFrame(s[..end], fs[0]) && CutInto(s[end..], fs[1..], rest)
  }

  lemma FirstIsFrame(s: seq<byte>)
    requires StartsWithFrame(s)
    ensures var end := 8 + |FirstFrame(s).payload|;
            end <= |s| && IsFrame(s[..end], FirstFrame(s)) && s[end..] == AfterFirstFrame(s)
  {
    var end := 8 + |FirstFrame(s).payload|;
    BigEndianOfUint32(s[4..8]);
    assert s[..end][4..8] == s[4..8] && s[..end][8..] == s[8..end];
  }

  lemma BigEndianOfUint32(b: seq<byte>)
    requires |b| == 4
    ensures BigEndian(Uint32(b)) == b
  {
    var n, high := Uint32(b), b[0] as int * 0x100 + b[1] as int;
    assert n / 0x100 == high * 0x100 + b[2] as int && n / 0x1_0000 == high;
  }

  /** Taking a stream apart gives the one way to cut it into frames from the front until no frame follows. */
  lemma {:induction false} FramesExactly(s: seq<byte>, fs: seq<Frame>, rest: seq<byte>)
    ensures Frames(s) == fs && Leftover(s) == rest <==>
              CutInto(s, fs, rest) && forall f, end :: 0 <= end <= |rest| ==> !IsFrame(rest[..end], f)
    decreases |s|
  {
    hide Uint32, BigEndian, FirstFrame, AfterFirstFrame, IsFrame;
    if StartsWithFrame(s) {
      FirstIsFrame(s);
      var f, after, end := FirstFrame(s), AfterFirstFrame(s), 8 + |FirstFrame(s).payload|;
      if fs != [] {
        FramesExactly(after, fs[1..], rest);
        if e :| 0 <= e <= |s| && IsFrame(s[..e], fs[0]) && CutInto(s[e..], fs[1..], rest) {
          SameFirstFrame(s, fs[0], e);
        }
        assert Frames(s) == fs <==> f == fs[0] && Frames(after) == fs[1..] by {
          assert fs == [fs[0]] + fs[1..];
        }
      }
    } else {
      forall f, end | 0 <= end <= |s| ensures !IsFrame(s[..end], f) {
        assert s[..end] + s[end..] == s;
        if IsFrame(s[..end], f) {
          FrameParses(s[..end], f, s[end..]);
        }
      }
    }
  }

  lemma SameFirstFrame(s: seq<byte>, f: Frame, end: nat)
    requires end <= |s| && IsFrame(s[..end], f)
    ensures StartsWithFrame(s) && FirstFrame(s) == f && AfterFirstFrame(s) == s[end..]
  {
    FrameParses(s[..end], f, s[end..]);
    assert s[..end] + s[end..] == s;
    assert Frames(s)[0] == f;
  }

  /** The bytes on the wire, written out. */
  lemma WireFormat()
    ensures Encode(Frame(2, [7, 9])) == [2, 0, 0, 0, 0, 0, 0, 2, 7, 9]
    ensures Frames([2, 0, 0, 0, 0, 0, 0, 2, 7, 9]) == [Frame(2, [7, 9])]
    ensures StartsWithBadHeader([3, 0, 0, 0, 0, 0, 0, 0]) && Frames([3, 0, 0, 0, 0, 0, 0, 0]) == []
  {
    assert Encode(Frame(2, [7, 9])) == [2, 0, 0, 0, 0, 0, 0, 2, 7, 9];
    var f := Frame(2, [7, 9]);
    assert Carried(f) && EncodeAll([f]) == Encode(f) + EncodeAll([]);
    assert EncodeAll([f]) == Encode(f);
    hide Frames;
    RoundTrip([f]);
    NoFrameAtFront([3, 0, 0, 0, 0, 0, 0, 0]);
  }

  /** Taking apart what the writers put together gives back the writes, and nothing is left over. */
  lemma {:induction false} RoundTrip(fs: seq<Frame>)
    requires forall f :: f in fs ==> Carried(f)
    ensures Frames(EncodeAll(fs)) == fs && Leftover(EncodeAll(fs)) == []
  {
    if fs == [] {
    } else {
      RoundTrip(fs[1..]);
      CarriedFrameParses(fs[0], EncodeAll(fs[1..]));
      assert fs == [fs[0]] + fs[1..];
    }
  }

  lemma ForeignFrameIsLost(f: Frame, rest: seq<byte>)
    requires !Carried(f)
    ensures Frames(Encode(f) + rest) == [] || Frames(Encode(f) + rest)[0] != f
  {
    var s := Encode(f) + rest;
    EncodeStartsStream(f, rest);
    if StartsWithFrame(s) {
      var end := PREFIX_LEN + Uint32(s[4..8]);
      assert |Frames(s)[0].payload| == |f.payload| % TWO_TO_THE_32 < |f.payload|;
    }
  }

  /** The round trip holds exactly when every write is carried: a length of 2^32 or more, which the
      header silently truncates, always shows. */
  lemma {:induction false} RoundTripExactly(fs: seq<Frame>)
    ensures Frames(EncodeAll(fs)) == fs <==> forall f :: f in fs ==> Carried(f)
  {
    if forall f :: f in fs ==> Carried(f) {
      RoundTrip(fs);
    } else if Carried(fs[0]) {
      CarriedFrameParses(fs[0], EncodeAll(fs[1..]));
      RoundTripExactly(fs[1..]);
      assert fs == [fs[0]] + fs[1..];
    } else {
      ForeignFrameIsLost(fs[0], EncodeAll(fs[1..]));
    }
  }

  lemma CutFrameIsLost(f: Frame, rest: seq<byte>, cut: nat)
    requires Carried(f) && cut < |Encode(f)|
    ensures var s := (Encode(f) + rest)[..cut];
            Frames(s) == [] && Leftover(s) == s && !StartsWithBadHeader(s)
  {
    var whole := Encode(f) + rest;
    EncodeStartsStream(f, rest);
    assert cut >= PREFIX_LEN ==> whole[..cut][4..8] == whole[4..8];
    NoFrameAtFront(whole[..cut]);
  }

  /** The number of writes that lie completely in the first `cut` bytes of the stream. */
  function WritesBefore(fs: seq<Frame>, cut: nat): (k: nat)
    ensures k <= |fs|
  {
    if fs == [] || cut < |Encode(fs[0])| then 0 else 1 + WritesBefore(fs[1..], cut - |Encode(fs[0])|)
  }

  lemma {:induction false} WritesBeforeIsTheMost(fs: seq<Frame>, cut: nat)
    ensures var k := WritesBefore(fs, cut);
            |EncodeAll(fs[..k])| <= cut && (k < |fs| ==> cut < |EncodeAll(fs[..k + 1])|)
  {
    var k := WritesBefore(fs, cut);
    if fs == [] {
    } else {
      if k == 0 {
        assert fs[..1] == [fs[0]] && EncodeAll([fs[0]]) == Encode(fs[0]) + [];
      } else {
        WritesBeforeIsTheMost(fs[1..], cut - |Encode(fs[0])|);
        assert fs[..k] == [fs[0]] + fs[1..][..k - 1];
        assert k < |fs| ==> fs[..k + 1] == [fs[0]] + fs[1..][..k];
      }
    }
  }

  lemma CutLater(f: Frame, rest: seq<byte>, cut: nat)
    requires Carried(f) && |Encode(f)| <= cut <= |Encode(f)| + |rest|
    ensures Frames((Encode(f) + rest)[..cut]) == [f] + Frames(rest[..cut - |Encode(f)|])
    ensures Leftover((Encode(f) + rest)[..cut]) == Leftover(rest[..cut - |Encode(f)|])
  {
    hide *;
    assert (Encode(f) + rest)[..cut] == Encode(f) + rest[..cut - |Encode(f)|];
    CarriedFrameParses(f, rest[..cut - |Encode(f)|]);
  }

  lemma NothingStarts()
    ensures !StartsWithFrame([]) && !StartsWithBadHeader([])
  {
  }

  /** A stream that is cut anywhere still yields exactly the writes that lie completely before the
      cut, and what is left of the last one never looks like a bad header. */
  lemma {:induction false} TruncatedStream(fs: seq<Frame>, cut: nat)
    requires forall f :: f in fs ==> Carried(f)
    requires cut <= |EncodeAll(fs)|
    ensures Frames(EncodeAll(fs)[..cut]) == fs[..WritesBefore(fs, cut)]
    ensures !StartsWithBadHeader(Leftover(EncodeAll(fs)[..cut]))
  {
    hide Encode, Frames, Leftover, StartsWithFrame, StartsWithBadHeader, Carried, Uint32;
    if fs == [] {
      NothingStarts();
      NoFrameAtFront([]);
      assert fs[..0] == [] && EncodeAll(fs)[..cut] == [];
    } else {
      var f, rest, k := fs[0], EncodeAll(fs[1..]), WritesBefore(fs, cut);
      assert EncodeAll(fs) == Encode(f) + rest && f in fs;
      if cut < |Encode(f)| {
        assert k == 0;
        hide *;
        CutFrameIsLost(f, rest, cut);
        assert fs[..0] == [];
      } else {
        assert k == 1 + WritesBefore(fs[1..], cut - |Encode(f)|);
        hide *;
        TruncatedStream(fs[1..], cut - |Encode(f)|);
        CutLater(f, rest, cut);
        assert fs[..k] == [f] + fs[1..][..k - 1];
      }
    }
  }

  // ---------------------------------------------------------------------------------------------
  // The outside: a reader and writers that choose their own chunk sizes and failures
  // ---------------------------------------------------------------------------------------------

  datatype ReadError = NoError | EndOfFile | ReadFailed

  /** How one `Read` behaves: at most `size + 1` bytes; `early` reports the end of the file together
      with the last bytes; `fail` is any other error. */
  datatype ReadChoice = ReadChoice(size: nat, early: bool, fail: bool)

  class Source {
    var rest: seq<byte>
    var calls: nat
    const plan: nat -> ReadChoice

    constructor (data: seq<byte>, plan: nat -> ReadChoice)
      ensures rest == data && calls == 0 && this.plan == plan
    {
      rest, calls, this.plan := data, 0, plan;
    }

    ghost predicate Reliable() {
      forall i :: !plan(i).fail
    }

    method Read(buf: array<byte>, from: nat) returns (n: nat, er: ReadError)
      requires from < buf.Length
      modifies this, buf
      ensures n <= |old(rest)| && from + n <= buf.Length
      ensures buf[..from] == old(buf[..from]) && buf[from..from + n] == old(rest)[..n]
      ensures rest == old(rest)[n..]
      ensures er == EndOfFile ==> rest == []
      ensures er == NoError ==> n > 0
      ensures er == ReadFailed ==> !Reliable()
    {
      ghost var front, data := buf[..from], rest;
      var choice := plan(calls);
      calls := calls + 1;
      n := if choice.size < |rest| then choice.size + 1 else |rest|;
      if n > buf.Length - from {
        n := buf.Length - from;
      }
      forall i | 0 <= i < n {
        buf[from + i] := rest[i];
      }
      assert buf[..from] == front by {
        assert forall i :: 0 <= i < from ==> buf[i] == front[i];
      }
      assert buf[from..from + n] == data[..n] by {
        assert forall i :: 0 <= i < n ==> buf[from + i] == data[i];
      }
      er := if choice.fail then ReadFailed
      else if rest == [] || (n == |rest| && choice.early) then EndOfFile else NoError;
      rest := rest[n..];
    }
  }

  /** How one `Write` behaves: takes everything, or only some bytes with or without an error. */
  datatype WriteChoice = TakeAll | TakeSome(size: nat, fail: bool)

  class Sink {
    var contents: seq<byte>
    var calls: nat
    const plan: nat -> WriteChoice

    constructor (plan: nat -> WriteChoice)
      ensures contents == [] && calls == 0 && this.plan == plan
    {
      contents, calls, this.plan := [], 0, plan;
    }

    ghost predicate Reliable() {
      forall i :: plan(i).TakeAll?
    }

    method Write(p: seq<byte>) returns (n: nat, ok: bool)
      modifies this
      ensures n <= |p| && contents == old(contents) + p[..n]
      ensures Reliable() ==> n == |p| && ok
    {
      var choice := plan(calls);
      calls := calls + 1;
      n, ok := |p|, true;
      if choice.TakeSome? {
        ok := !choice.fail;
        if choice.size < |p| {
          n := choice.size;
        }
      }
      contents := contents + p[..n];
    }
  }

  // ---------------------------------------------------------------------------------------------
  // The writer
  // ---------------------------------------------------------------------------------------------

  class StdWriter {
    const writer: Sink?
    const prefix: byte

    constructor (writer: Sink?, prefix: byte)
      ensures this.writer == writer && this.prefix == prefix
    {
      this.writer, this.prefix := writer, prefix;
    }

    /** Puts the header and the payload on the wire in one write, and reports how much of the
        payload went out. A nil payload writes nothing at all, not even a header. */
    method Write(p: array?<byte>) returns (n: nat, ok: bool)
      modifies writer
      ensures ok ==> writer != null
      ensures writer != null && p == null ==> ok && n == 0 && writer.contents == old(writer.contents)
      ensures writer != null && p != null ==>
                && old(writer.contents) <= writer.contents
                && var sent := writer.contents[|old(writer.contents)|..];
                && sent <= Encode(Frame(prefix, p[..])) && n == (if |sent| < PREFIX_LEN then 0 else |sent| - PREFIX_LEN)
      ensures writer != null && p != null && writer.Reliable() ==>
                ok && n == p.Length && writer.contents == old(writer.contents) + Encode(Frame(prefix, p[..]))
    {
      if writer == null {
        return 0, false;
      }
      if p == null {
        return 0, true;
      }
      var header := [prefix, 0, 0, 0] + BigEndian(p.Length % TWO_TO_THE_32);
      var buf := header + p[..];
      assert buf == Encode(Frame(prefix, p[..]));
      var k;
      k, ok := writer.Write(buf);
      n := if k < PREFIX_LEN then 0 else k - PREFIX_LEN;
      assert writer.Reliable() ==> buf[..k] == buf;
    }
  }

  // ---------------------------------------------------------------------------------------------
  // The copier
  // ---------------------------------------------------------------------------------------------

  datatype CopyError = Clean | BadHeader(stream: byte) | SourceFailed | SinkFailed | ShortWrite

  /** The refill loop, which `StdCopy` runs once for the header and once for the rest of the frame:
      reads until `need` bytes are buffered or the source ends. The bytes that are buffered and the
      bytes still to be read stay, together, the same stream. */
  method Refill(src: Source, buf: array<byte>, nr0: nat, need: nat) returns (nr: nat, er: ReadError)
    requires nr0 <= buf.Length && need <= buf.Length
    modifies src, buf
    ensures nr0 <= nr <= buf.Length
    ensures buf[..nr] + src.rest == old(buf[..nr0] + src.rest)
    ensures er == NoError ==> need <= nr
    ensures er == EndOfFile ==> src.rest == []
    ensures er == ReadFailed ==> !src.Reliable()
  {
    nr, er := nr0, NoError;
    while nr < need
      invariant nr0 <= nr <= buf.Length
      invariant buf[..nr] + src.rest == old(buf[..nr0] + src.rest)
      invariant er == NoError
      decreases |src.rest|
    {
      ghost var had, rest := buf[..nr], src.rest;
      var nr2;
      nr2, er := src.Read(buf, nr);
      assert buf[..nr + nr2] == had + rest[..nr2];
      assert buf[..nr + nr2] + src.rest == had + rest;
      nr := nr + nr2;
      if er != NoError {
        return;
      }
    }
  }

  /** Replaces the buffer by a larger one with the same front. */
  method Grow(buf: array<byte>, length: nat) returns (bigger: array<byte>)
    requires buf.Length <= length
    ensures fresh(bigger) && bigger.Length == length && bigger[..buf.Length] == buf[..]
  {
    bigger := new byte[length](_ => 0);
    forall i | 0 <= i < buf.Length {
      bigger[i] := buf[i];
    }
  }

  /** Moves the end of the buffer, from `from` on, to its front. */
  method CopyDown(buf: array<byte>, from: nat)
    requires from <= buf.Length
    modifies buf
    ensures forall i :: 0 <= i < buf.Length - from ==> buf[i] == old(buf[from + i])
  {
    forall i | 0 <= i < buf.Length - from {
      buf[i] := buf[from + i];
    }
  }

  lemma FrameAtFront(s: seq<byte>, done: seq<Frame>, all: seq<byte>)
    requires StartsWithFrame(s)
    requires Frames(all) == done + Frames(s) && Leftover(all) == Leftover(s)
    ensures Frames(all) == (done + [FirstFrame(s)]) + Frames(AfterFirstFrame(s))
    ensures Leftover(all) == Leftover(AfterFirstFrame(s))
  {
  }

  lemma NoFrameAtFront(s: seq<byte>)
    requires !StartsWithFrame(s)
    ensures Frames(s) == [] && Leftover(s) == s
  {
  }

  /** What a writer has received grows by what it receives of one more frame. */
  lemma OneMoreFrame(before: seq<byte>, done: seq<Frame>, f: Frame, out: bool, err: bool)
    ensures (before + Payloads(done, out, err)) + Payloads([f], out, err) == before + Payloads(done + [f], out, err)
  {
    hide Payloads;
    PayloadsConcat(done, [f], out, err);
  }

  lemma NoMoreFrames(un: seq<byte>, done: seq<Frame>, all: seq<byte>)
    requires !StartsWithFrame(un)
    requires Frames(all) == done + Frames(un) && Leftover(all) == Leftover(un)
    ensures Frames(all) == done && Leftover(all) == un
  {
    assert done + [] == done;
  }

  datatype Fetch = Whole(size: nat) | Ended | Bad(stream: byte) | Broken

  /** The first half of the copier's loop: buffers one whole frame, growing the buffer for it. The
      bytes that are buffered and the bytes still to be read stay, together, the same stream. */
  method FetchFrame(src: Source, buf0: array<byte>, nr0: nat) returns (buf: array<byte>, nr: nat, got: Fetch)
    requires nr0 <= buf0.Length && STARTING_BUF_LEN <= buf0.Length
    modifies src, buf0
    ensures (buf == buf0 || fresh(buf)) && STARTING_BUF_LEN <= buf.Length && nr <= buf.Length
    ensures buf[..nr] + src.rest == old(buf0[..nr0] + src.rest)
    ensures var un := old(buf0[..nr0] + src.rest);
            match got
            case Whole(size) => StartsWithFrame(un) && size == Uint32(un[4..8]) && PREFIX_LEN + size <= nr
            case Ended => !StartsWithFrame(un) && !StartsWithBadHeader(un) && src.rest == []
            case Bad(b) => StartsWithBadHeader(un) && b == un[0]
            case Broken => !src.Reliable()
  {
    buf := buf0;
    ghost var un := buf[..nr0] + src.rest;
    var er;
    nr, er := Refill(src, buf, nr0, PREFIX_LEN);
    if er == ReadFailed {
      return buf, nr, Broken;
    }
    if nr < PREFIX_LEN {
      return buf, nr, Ended;
    }
    assert un[0] == buf[0];
    if buf[0] > 2 {
      return buf, nr, Bad(buf[0]);
    }
    var frameSize := Uint32(buf[4..8]);
    assert un[4..8] == buf[4..8];
    if frameSize + PREFIX_LEN > buf.Length {
      buf := Grow(buf, frameSize + PREFIX_LEN + 1);
    }
    assert buf[..nr] == un[..nr];
    nr, er := Refill(src, buf, nr, frameSize + PREFIX_LEN);
    if er == ReadFailed {
      return buf, nr, Broken;
    }
    if nr < frameSize + PREFIX_LEN {
      return buf, nr, Ended;
    }
    got := Whole(frameSize);
  }

  /** The second half of the copier's loop: hands the buffered frame to the writer its stream
      selects and moves the bytes after it to the front of the buffer. */
  method DeliverFrame(dstout: Sink, dsterr: Sink, buf: array<byte>, nr0: nat, size: nat, ghost ahead: seq<byte>)
    returns (nr: nat, err: CopyError)
    requires PREFIX_LEN + size <= nr0 <= buf.Length
    requires StartsWithFrame(buf[..nr0] + ahead) && size == Uint32((buf[..nr0] + ahead)[4..8])
    modifies dstout, dsterr, buf
    ensures err.Clean? || err.SinkFailed? || err.ShortWrite?
    ensures !err.Clean? ==> !(dstout.Reliable() && dsterr.Reliable())
    ensures nr <= buf.Length
    ensures err.Clean? ==> buf[..nr] + ahead == AfterFirstFrame(old(buf[..nr0] + ahead))
    ensures old(dstout.contents) <= dstout.contents && old(dsterr.contents) <= dsterr.contents
    ensures err.Clean? ==>
              var f := FirstFrame(old(buf[..nr0] + ahead));
              && dstout.contents == old(dstout.contents) + Payloads([f], true, dstout == dsterr)
              && dsterr.contents == old(dsterr.contents) + Payloads([f], dstout == dsterr, true)
  {
    ghost var un := buf[..nr0] + ahead;
    var end := PREFIX_LEN + size;
    var payload := buf[PREFIX_LEN..end];
    assert un[..nr0] == buf[..nr0];
    assert payload == un[..nr0][PREFIX_LEN..end];
    assert payload == un[PREFIX_LEN..end] && buf[0] == un[0];
    assert Payloads([FirstFrame(un)], true, dstout == dsterr) ==
      if buf[0] != 2 || dstout == dsterr then payload else [];
    assert Payloads([FirstFrame(un)], dstout == dsterr, true) ==
      if buf[0] == 2 || dstout == dsterr then payload else [];
    var nw, ok := (if buf[0] == 2 then dsterr else dstout).Write(payload);
    nr := nr0;
    if !ok {
      return nr, SinkFailed;
    }
    if nw != size {
      return nr, ShortWrite;
    }
    assert payload[..nw] == payload;
    ghost var kept := buf[end..nr0];
    assert un[end..] == kept + ahead;
    CopyDown(buf, end);
    nr := nr0 - end;
    assert buf[..nr] == kept;
    err := Clean;
  }

  /** One round of the copier's loop: delivers the next frame, or says in `stop` why there is none. */
  method CopyFrame(dstout: Sink, dsterr: Sink, src: Source, buf0: array<byte>, nr0: nat)
    returns (buf: array<byte>, nr: nat, size: nat, stop: Option<CopyError>)
    requires nr0 <= buf0.Length && STARTING_BUF_LEN <= buf0.Length
    modifies dstout, dsterr, src, buf0
    ensures (buf == buf0 || fresh(buf)) && STARTING_BUF_LEN <= buf.Length && nr <= buf.Length
    ensures var un := old(buf0[..nr0] + src.rest);
            match stop
            case None =>
              && StartsWithFrame(un) && size == |FirstFrame(un).payload|
              && buf[..nr] + src.rest == AfterFirstFrame(un)
              && dstout.contents == old(dstout.contents) + Payloads([FirstFrame(un)], true, dstout == dsterr)
              && dsterr.contents == old(dsterr.contents) + Payloads([FirstFrame(un)], dstout == dsterr, true)
            case Some(err) =>
              && old(dstout.contents) <= dstout.contents && old(dsterr.contents) <= dsterr.contents
              && (err.Clean? ==> !StartsWithFrame(un) && !StartsWithBadHeader(un) && src.rest == [])
              && (err.BadHeader? ==> StartsWithBadHeader(un) && err.stream == un[0])
              && (err.SourceFailed? ==> !src.Reliable())
              && (Interrupted(err) ==> StartsWithFrame(un) && !(dstout.Reliable() && dsterr.Reliable()))
              && (!Interrupted(err) ==> unchanged(dstout) && unchanged(dsterr))
  {
    var got;
    buf, nr, got := FetchFrame(src, buf0, nr0);
    size := 0;
    match got
    case Ended => stop := Some(Clean);
    case Bad(b) => stop := Some(BadHeader(b));
    case Broken => stop := Some(SourceFailed);
    case Whole(frameSize) =>
      var err;
      nr, err := DeliverFrame(dstout, dsterr, buf, nr, frameSize, src.rest);
      size := frameSize;
      stop := if err.Clean? then None else Some(err);
  }

  /** The call ended in the middle of handing over a frame. */
  predicate Interrupted(err: CopyError) {
    err.SinkFailed? || err.ShortWrite?
  }

  /** What a call of `StdCopy` on `stream` reports when it has delivered the frames in `done`. */
  ghost predicate Reported(stream: seq<byte>, done: seq<Frame>, written: nat, err: CopyError) {
    match err
    case Clean => done == Frames(stream) && written == TotalLength(done) && !StartsWithBadHeader(Leftover(stream))
    case BadHeader(b) => done == Frames(stream) && written == 0 && StartsWithBadHeader(Leftover(stream)) &&
      b == Leftover(stream)[0]
    case SourceFailed => done <= Frames(stream) && written == 0
    case _ => done < Frames(stream) && written == 0
  }

  /** Takes a stream apart. However the source cuts the bytes into chunks, and wherever it reports
      the end of the file, the writers receive exactly the payloads of the complete frames, in
      order; `dstout` and `dsterr` may be one and the same writer. `done` is what was delivered
      completely: everything, unless the source or a writer fails. */
  method StdCopy(dstout: Sink, dsterr: Sink, src: Source) returns (written: nat, err: CopyError, ghost done: seq<Frame>)
    modifies src, dstout, dsterr
    ensures Reported(old(src.rest), done, written, err)
    ensures err.Clean? ==> src.rest == []
    ensures err.SourceFailed? ==> !src.Reliable()
    ensures Interrupted(err) ==> !(dstout.Reliable() && dsterr.Reliable())
    ensures old(dstout.contents) + Payloads(done, true, dstout == dsterr) <= dstout.contents
    ensures old(dsterr.contents) + Payloads(done, dstout == dsterr, true) <= dsterr.contents
    ensures !Interrupted(err) ==>
              && dstout.contents == old(dstout.contents) + Payloads(done, true, dstout == dsterr)
              && dsterr.contents == old(dsterr.contents) + Payloads(done, dstout == dsterr, true)
    ensures !Interrupted(err) && dstout == dsterr ==> dstout.contents == old(dstout.contents) + AllBytes(done)
  {
    var buf := new byte[STARTING_BUF_LEN](_ => 0);
    var nr: nat := 0;
    written, done := 0, [];
    ghost var stream, un := src.rest, src.rest;
    while true
      invariant fresh(buf) && STARTING_BUF_LEN <= buf.Length && nr <= buf.Length
      invariant un == buf[..nr] + src.rest
      invariant Frames(stream) == done + Frames(un) && Leftover(stream) == Leftover(un)
      invariant written == TotalLength(done)
      invariant dstout.contents == old(dstout.contents) + Payloads(done, true, dstout == dsterr)
      invariant dsterr.contents == old(dsterr.contents) + Payloads(done, dstout == dsterr, true)
      decreases |un|
    {
      var size, stop;
      buf, nr, size, stop := CopyFrame(dstout, dsterr, src, buf, nr);
      if stop.Some? {
        if !StartsWithFrame(un) {
          NoMoreFrames(un, done, stream);
        }
        PayloadsBySide(done);
        err := stop.value;
        written := if err.Clean? then written else 0;
        break;
      }
      FrameAtFront(un, done, stream);
      OneMoreFrame(old(dstout.contents), done, FirstFrame(un), true, dstout == dsterr);
      OneMoreFrame(old(dsterr.contents), done, FirstFrame(un), dstout == dsterr, true);
      LengthAppend(done, FirstFrame(un));
      written := written + size;
      done := done + [FirstFrame(un)];
      un := AfterFirstFrame(un);
    }
  }

  // ---------------------------------------------------------------------------------------------
  // End to end
  // ---------------------------------------------------------------------------------------------

  lemma {:induction false} EncodeAllAppend(fs: seq<Frame>, f: Frame)
    ensures EncodeAll(fs + [f]) == EncodeAll(fs) + Encode(f)
  {
    if fs == [] {
      assert fs + [f] == [f];
    } else {
      assert (fs + [f])[1..] == fs[1..] + [f];
      EncodeAllAppend(fs[1..], f);
    }
  }

  /** Several stream writers sharing one connection. */
  method Multiplex(ws: seq<Frame>) returns (wire: seq<byte>)
    ensures wire == EncodeAll(ws)
  {
    var connection := new Sink(_ => TakeAll);
    for i := 0 to |ws|
      invariant connection.contents == EncodeAll(ws[..i]) && fresh(connection)
      invariant connection.Reliable()
    {
      var p := new byte[|ws[i].payload|](k requires 0 <= k < |ws[i].payload| => ws[i].payload[k]);
      assert p[..] == ws[i].payload;
      var writer := new StdWriter(connection, ws[i].stream);
      var n, ok := writer.Write(p);
      EncodeAllAppend(ws[..i], ws[i]);
      assert ws[..i + 1] == ws[..i] + [ws[i]];
    }
    assert ws[..|ws|] == ws;
    wire := connection.contents;
  }

  /** Whatever was written, however it is cut into chunks, and wherever the connection ends: the
      copier hands over exactly the writes that arrived completely, each to its own side. */
  method Transfer(ws: seq<Frame>, cut: nat, chunks: nat -> ReadChoice)
    returns (out: seq<byte>, errs: seq<byte>, written: nat, err: CopyError)
    requires forall f :: f in ws ==> Carried(f)
    requires cut <= |EncodeAll(ws)|
    requires forall i :: !chunks(i).fail
    ensures var arrived := ws[..WritesBefore(ws, cut)];
            && out == Payloads(arrived, true, false) && errs == Payloads(arrived, false, true)
            && written == TotalLength(arrived) && err == Clean
    ensures cut == |EncodeAll(ws)| ==> out == Payloads(ws, true, false) && errs == Payloads(ws, false, true)
    ensures (forall f :: f in ws ==> f.stream == 0 || f.stream == 1) ==>
              out == AllBytes(ws[..WritesBefore(ws, cut)]) && errs == []
    ensures (forall f :: f in ws ==> f.stream == 2) ==> out == [] && errs == AllBytes(ws[..WritesBefore(ws, cut)])
    ensures |out| + |errs| == written
  {
    var wire := Multiplex(ws);
    var src := new Source(wire[..cut], chunks);
    var dstout := new Sink(_ => TakeAll);
    var dsterr := new Sink(_ => TakeAll);
    TruncatedStream(ws, cut);
    PayloadsBySide(ws[..WritesBefore(ws, cut)]);
    ghost var done;
    written, err, done := StdCopy(dstout, dsterr, src);
    out, errs := dstout.contents, dsterr.contents;
    if cut == |wire| {
      assert wire[..cut] == wire;
      RoundTrip(ws);
    }
  }
}
