/** What two connection handlers say to each other, and how a reader that asks for one field after the
    other recognises it. */
module Frames {
  import opened Bytes
  import opened Crypto
  import opened MessageQueue

  datatype Frame = Ack(seqNum: uint64) | Data(m: Message) | KeepAlive

  predicate Sendable(f: Frame) {
    f.Data? ==> |f.m.body| < TWO64
  }

  function Encode(p: Primitives, f: Frame): (r: bytes)
    ensures |r| >= 4
  {
    match f
    case Ack(s) => Be32(1) + Be64(s)
    case Data(m) => Be32(2) + Be64(m.seqNum) + Be64(Wrap64(|m.body|)) + m.body + p.sha(m.body)
    case KeepAlive => Be32(3)
  }

  function EncodeAll(p: Primitives, fs: seq<Frame>): bytes {
    if fs == [] then [] else Encode(p, fs[0]) + EncodeAll(p, fs[1..])
  }

  /** The frames in which these messages travel. */
  function DataFrames(ms: seq<Message>): (fs: seq<Frame>)
    ensures |fs| == |ms| && forall i | 0 <= i < |ms| :: fs[i] == Data(ms[i])
  {
    seq(|ms|, i requires 0 <= i < |ms| => Data(ms[i]))
  }

  lemma {:induction false} EncodeAllSnoc(p: Primitives, fs: seq<Frame>, f: Frame)
    ensures EncodeAll(p, fs + [f]) == EncodeAll(p, fs) + Encode(p, f)
  {
    hide Encode;
    if fs == [] {
      assert (fs + [f])[1..] == [];
    } else {
      EncodeAllSnoc(p, fs[1..], f);
      assert (fs + [f])[1..] == fs[1..] + [f];
    }
  }

  datatype Progress = Need(n: nat) | Complete(f: Frame) | Malformed

  /** What the reader does after the bytes `got` of a frame: ask for the rest of the current field, or
      finish, or give the connection up. */
  function Wanted(p: Primitives, got: bytes): Progress {
    if |got| < 4 then Need(4 - |got|) else
    var t := De32(got[..4]);
    if t == 1 then WantedAck(got)
    else if t == 2 then WantedData(p, got)
    else if t == 3 then Complete(KeepAlive)
    else Malformed
  }

  function WantedAck(got: bytes): Progress
    requires |got| >= 4
  {
    if |got| < 12 then Need(12 - |got|) else Complete(Ack(De64(got[4..12])))
  }

  function WantedData(p: Primitives, got: bytes): Progress
    requires |got| >= 4
  {
    if |got| < 12 then Need(12 - |got|) else
    if |got| < 20 then Need(20 - |got|) else
    var len := De64(got[12..20]);
    if |got| < 20 + len then Need(20 + len - |got|) else
    if |got| < 52 + len then Need(52 + len - |got|) else
    var body := got[20..20 + len];
    if p.sha(body) == got[20 + len..52 + len] then Complete(Data(Message(De64(got[4..12]), body))) else Malformed
  }

  lemma DataLayout(p: Primitives, m: Message)
    requires |m.body| < TWO64
    ensures var e, n := Encode(p, Data(m)), |m.body|;
      && |e| == 52 + n
      && e[..4] == Be32(2) && e[4..12] == Be64(m.seqNum) && e[12..20] == Be64(n)
      && e[20..20 + n] == m.body && e[20 + n..52 + n] == p.sha(m.body)
  {
    hide Be32, Be64;
  }

  /** Each frame byte for byte: the type in four bytes, and for two of the three types a sequence number; a message has its
      length, its bytes and their hash besides. */
  lemma FrameStands(p: Primitives, f: Frame)
    requires Sendable(f)
    ensures var e := Encode(p, f);
      match f
      case Ack(s) => |e| == 12 && De32(e[..4]) == 1 && De64(e[4..]) == s
      case KeepAlive => |e| == 4 && De32(e) == 3
      case Data(m) =>
        var n := |m.body|;
        && |e| == 4 + 8 + 8 + n + 32
        && De32(e[..4]) == 2 && De64(e[4..12]) == m.seqNum && De64(e[12..20]) == n
        && e[20..20 + n] == m.body && e[20 + n..] == p.sha(m.body)
  {
    hide Be32, Be64, De32, De64;
    TypesDiffer();
    match f
    case Ack(s) => {
      DeBe64(s);
      assert Encode(p, f)[..4] == Be32(1) && Encode(p, f)[4..] == Be64(s);
    }
    case KeepAlive =>
    case Data(m) => {
      DataLayout(p, m);
      DeBe64(m.seqNum);
      DeBe64(|m.body|);
    }
  }

  lemma TypesDiffer()
    ensures De32(Be32(1)) == 1 && De32(Be32(2)) == 2 && De32(Be32(3)) == 3
  {
    DeBe32(1);
    DeBe32(2);
    DeBe32(3);
  }

  /** On any part of a frame the reader asks for bytes of that frame only, and on the whole of it the
      reader recognises exactly that frame. */
  lemma ReaderFollowsFrame(p: Primitives, f: Frame, got: bytes)
    requires Sendable(f) && got <= Encode(p, f)
    ensures got == Encode(p, f) ==> Wanted(p, got) == Complete(f)
    ensures got != Encode(p, f) ==>
      Wanted(p, got).Need? && 1 <= Wanted(p, got).n && |got| + Wanted(p, got).n <= |Encode(p, f)|
  {
    TypesDiffer();
    match f
    case KeepAlive => {
      assert |got| == 4 ==> got[..4] == got == Encode(p, f);
    }
    case Ack(s) => {
      AckFollowed(p, s, got);
    }
    case Data(m) => {
      DataFollowed(p, m, got);
    }
  }

  lemma AckFollowed(p: Primitives, s: uint64, got: bytes)
    requires got <= Encode(p, Ack(s))
    ensures |got| >= 4 ==> De32(got[..4]) == 1
    ensures |got| == 12 ==> WantedAck(got) == Complete(Ack(s))
    ensures |Encode(p, Ack(s))| == 12
  {
    hide Be32, Be64, De32, De64;
    var e := Encode(p, Ack(s));
    assert e[..4] == Be32(1) && e[4..12] == Be64(s);
    TypesDiffer();
    DeBe64(s);
    if |got| >= 4 {
      SliceOfPrefix(got, e, 0, 4);
    }
    if |got| == 12 {
      SliceOfPrefix(got, e, 4, 12);
    }
  }

  lemma DataFollowed(p: Primitives, m: Message, got: bytes)
    requires |m.body| < TWO64 && got <= Encode(p, Data(m))
    ensures |got| >= 4 ==> De32(got[..4]) == 2
    ensures |got| == |Encode(p, Data(m))| ==> WantedData(p, got) == Complete(Data(m))
    ensures 4 <= |got| < |Encode(p, Data(m))| ==>
      var w := WantedData(p, got); w.Need? && 1 <= w.n && |got| + w.n <= |Encode(p, Data(m))|
  {
    hide Be32, Be64, De32, De64, Encode;
    var e, n := Encode(p, Data(m)), |m.body|;
    DataLayout(p, m);
    TypesDiffer();
    DeBe64(m.seqNum);
    DeBe64(n);
    if |got| >= 4 {
      SliceOfPrefix(got, e, 0, 4);
    }
    if |got| >= 20 {
      SliceOfPrefix(got, e, 12, 20);
    }
    if |got| == |e| {
      assert got == e;
    }
  }

  /** Whatever the stream holds, a frame that the reader recognises is the encoding of that frame. */
  lemma RecognisedIsEncoded(p: Primitives, got: bytes)
    requires Wanted(p, got).Complete?
    ensures var f := Wanted(p, got).f; Sendable(f) && Encode(p, f) <= got
  {
    hide Be32, Be64, De32, De64;
    var f := Wanted(p, got).f;
    match f
    case KeepAlive => {
      assert got[..4] == Be32(3);
    }
    case Ack(s) => {
      assert got[..12] == got[..4] + got[4..12];
    }
    case Data(m) => {
      var n := |m.body|;
      assert got[..52 + n] == got[..4] + got[4..12] + got[12..20] + got[20..20 + n] + got[20 + n..52 + n];
    }
  }

  /** No frame's encoding begins another's, so a stream can be cut into frames in one way only. */
  lemma PrefixFree(p: Primitives, f: Frame, g: Frame)
    requires Sendable(f) && Sendable(g) && Encode(p, f) <= Encode(p, g)
    ensures f == g
  {
    hide Encode, Wanted;
    ReaderFollowsFrame(p, f, Encode(p, f));
    ReaderFollowsFrame(p, g, Encode(p, f));
  }

  /** Once a frame is recognised, later bytes do not change what it is. */
  lemma RecognisedForGood(p: Primitives, got: bytes, more: bytes)
    requires Wanted(p, got).Complete? && got <= more
    ensures Wanted(p, more) == Wanted(p, got)
  {
    hide De32, De64;
    SliceOfPrefix(got, more, 0, 4);
    if De32(got[..4]) != 3 {
      SliceOfPrefix(got, more, 4, 12);
    }
    if De32(got[..4]) == 2 {
      SliceOfPrefix(got, more, 12, 20);
      var n: nat := De64(got[12..20]);
      SliceOfPrefix(got, more, 20, 20 + n);
      SliceOfPrefix(got, more, 20 + n, 52 + n);
    }
  }

  /** What the reader gives up on is the beginning of no frame. */
  lemma MalformedIsNoFrame(p: Primitives, got: bytes, f: Frame, stream: bytes)
    requires Wanted(p, got) == Malformed && got <= stream && Sendable(f)
    ensures !(Encode(p, f) <= stream)
  {
    hide Encode, Wanted;
    if Encode(p, f) <= stream {
      var e := Encode(p, f);
      if |got| <= |e| {
        SliceOfPrefix(got, stream, 0, |got|);
        assert got <= e;
        ReaderFollowsFrame(p, f, got);
      } else {
        assert e <= got;
        ReaderFollowsFrame(p, f, e);
        RecognisedForGood(p, e, got);
      }
    }
  }

  /** The reader can take these bytes field by field: it asks for more after each proper part of them, and
      never for more than is left. */
  ghost predicate Readable(p: Primitives, x: bytes) {
    forall k | 0 <= k < |x| :: Wanted(p, x[..k]).Need? && 1 <= Wanted(p, x[..k]).n <= |x| - k
  }

  lemma FrameReadable(p: Primitives, f: Frame)
    requires Sendable(f)
    ensures Readable(p, Encode(p, f))
  {
    hide Encode, Wanted;
    var e := Encode(p, f);
    forall k | 0 <= k < |e|
      ensures Wanted(p, e[..k]).Need? && 1 <= Wanted(p, e[..k]).n <= |e| - k
    {
      ReaderFollowsFrame(p, f, e[..k]);
    }
  }

  lemma TypeReadable(p: Primitives, buf: bytes)
    requires |buf| == 4
    ensures Readable(p, buf)
  {
  }

  /** The fields of a data frame, whether or not the hash is right. */
  lemma DataReadable(p: Primitives, x: bytes)
    requires |x| >= 20 && De32(x[..4]) == 2 && |x| == 52 + De64(x[12..20])
    ensures Readable(p, x)
  {
    hide De32, De64;
    forall k | 0 <= k < |x|
      ensures Wanted(p, x[..k]).Need? && 1 <= Wanted(p, x[..k]).n <= |x| - k
    {
      if k >= 4 {
        assert x[..k][..4] == x[..4];
      }
      if k >= 20 {
        assert x[..k][12..20] == x[12..20];
      }
    }
  }

  /** The reader asked for more after every part of these bytes, and still does after the last one. */
  ghost predicate Unfinished(p: Primitives, x: bytes) {
    forall k | 0 <= k <= |x| :: Wanted(p, x[..k]).Need?
  }

  lemma TypeUnfinished(p: Primitives, x: bytes)
    requires |x| < 4
    ensures Unfinished(p, x)
  {
  }

  lemma AckUnfinished(p: Primitives, x: bytes)
    requires 4 <= |x| < 12 && De32(x[..4]) == 1
    ensures Unfinished(p, x)
  {
    hide De32, De64;
    forall k | 0 <= k <= |x|
      ensures Wanted(p, x[..k]).Need?
    {
      if k >= 4 {
        assert x[..k][..4] == x[..4];
      }
    }
  }

  /** The body of a data frame that was not read to its end. */
  lemma DataUnfinished(p: Primitives, x: bytes)
    requires |x| >= 4 && De32(x[..4]) == 2 && (|x| >= 20 ==> |x| < 52 + De64(x[12..20]))
    ensures Unfinished(p, x)
  {
    hide De32, De64;
    forall k | 0 <= k <= |x|
      ensures Wanted(p, x[..k]).Need?
    {
      if k >= 4 {
        assert x[..k][..4] == x[..4];
      }
      if k >= 20 {
        assert x[..k][12..20] == x[12..20];
      }
    }
  }
}
