/** The bytes of download and upload requests, and a capture with every kind of warning. */
module TransferCodec {
  import opened Basics
  import opened IsoTp
  import opened Transfers
  import Fields
  import PollCodec

  // ------------------------------------------------------------------
  // Requests
  // ------------------------------------------------------------------

  /** Service, format, widths (size above address), both fields, anything. */
  predicate WritesRequest(app: Bytes, sid: Byte, addressWidth: nat, sizeWidth: nat, r: Request, rest: Bytes) {
    && (sid == 0x34 || sid == 0x35)
    && 1 <= addressWidth <= 4 && 1 <= sizeWidth <= 4 && r.alf == 16 * sizeWidth + addressWidth
    && r.address < Pow256(addressWidth) && r.size < Pow256(sizeWidth)
    && app == [sid, r.format, r.alf] + ToBigEndian(r.address, addressWidth) + ToBigEndian(r.size, sizeWidth) + rest
  }

  lemma DecodeParts(app: Bytes, sid: Byte, format: Byte, alf: Byte, a: Bytes, s: Bytes, rest: Bytes)
    requires app == [sid, format, alf] + a + s + rest && (sid == 0x34 || sid == 0x35)
    requires |a| == alf % 16 && |s| == alf / 16 && 1 <= |a| <= 4 && 1 <= |s| <= 4
    ensures DecodeRequest(app) == Some(Request(format, alf, FromBigEndian(a), FromBigEndian(s)))
  {
    hide FromBigEndian;
    assert app[0] == sid && app[1] == format && app[2] == alf;
    assert app[3..3 + |a|] == a;
    assert app[3 + |a|..3 + |a| + |s|] == s;
  }

  lemma RequestDecodes(app: Bytes, sid: Byte, addressWidth: nat, sizeWidth: nat, r: Request, rest: Bytes)
    requires WritesRequest(app, sid, addressWidth, sizeWidth, r, rest)
    ensures DecodeRequest(app) == Some(r)
  {
    BigEndianRoundTrip(r.address, addressWidth);
    BigEndianRoundTrip(r.size, sizeWidth);
    PollCodec.Nibbles(addressWidth, sizeWidth);
    hide ToBigEndian, FromBigEndian, Pow256, DecodeRequest;
    var a, s := ToBigEndian(r.address, addressWidth), ToBigEndian(r.size, sizeWidth);
    DecodeParts(app, sid, r.format, r.alf, a, s, rest);
  }

  lemma CutInFour(s: Bytes, i: nat, j: nat)
    requires 3 + i + j <= |s|
    ensures s == [s[0], s[1], s[2]] + s[3..3 + i] + s[3 + i..3 + i + j] + s[3 + i + j..]
  {
    assert s[..3] == [s[0], s[1], s[2]];
    assert s == s[..3] + s[3..3 + i] + s[3 + i..3 + i + j] + s[3 + i + j..];
  }

  lemma DecodedIsRequest(app: Bytes)
    requires DecodeRequest(app).Some?
    ensures WritesRequest(app, app[0], app[2] % 16, app[2] / 16, DecodeRequest(app).value,
                          app[3 + app[2] % 16 + app[2] / 16..])
  {
    hide ToBigEndian, FromBigEndian, Pow256;
    var aw, sw := app[2] % 16, app[2] / 16;
    CutInFour(app, aw, sw);
    PollCodec.WrittenBack(app[3..3 + aw]);
    PollCodec.WrittenBack(app[3 + aw..3 + aw + sw]);
  }

  /** A request decodes to its format, widths, address and size exactly when it writes them. */
  lemma RequestExact(app: Bytes, r: Request)
    ensures DecodeRequest(app) == Some(r)
      <==> exists sid, aw: nat, sw: nat, rest :: WritesRequest(app, sid, aw, sw, r, rest)
  {
    if DecodeRequest(app) == Some(r) {
      DecodedIsRequest(app);
    }
    hide WritesRequest, DecodeRequest;
    forall sid, aw: nat, sw: nat, rest | WritesRequest(app, sid, aw, sw, r, rest)
      ensures DecodeRequest(app) == Some(r)
    {
      RequestDecodes(app, sid, aw, sw, r, rest);
    }
  }

  // ------------------------------------------------------------------
  // Every kind of warning
  // ------------------------------------------------------------------

  /** A download of two bytes to 0x10. */
  const DOWNLOAD: Bytes := [0x34, 0, 0x11, 0x10, 2]

  lemma DownloadDecodes()
    ensures DecodeRequest(DOWNLOAD) == Some(Request(0, 0x11, 0x10, 2))
  {
    assert DOWNLOAD == [0x34, 0, 0x11] + [0x10] + [2] + [];
    assert [0x10][..0] == [] && FromBigEndian([0x10]) == 0x10;
    assert [2][..0] == [] && FromBigEndian([2]) == 2;
    DecodeParts(DOWNLOAD, 0x34, 0, 0x11, [0x10], [2], []);
  }

  /**
   A block, one on the other service with a counter that skips 2, a new request, one that is
   cut short, and the end of the capture: two transfers, all five warnings.
   */
  lemma IrregularCapture()
    ensures Extract([Message(1, DOWNLOAD), Message(2, [0x36, 1, 7]), Message(3, [0xB6, 3, 8, 9]),
                     Message(4, UPLOAD_REQUEST), Message(5, [0x34, 0])])
      == ([Transfer(false, 0x10, 2, 3, 0, 0x11, 0x36, 2, 0, [7, 8, 9], 1, -1),
           Transfer(true, 0x10, 512, 0, 0, 0x21, 0x36, 0, 0, [], 4, -1)],
          [MixedSid(3, 0x36, 0xB6), SeqGap(3, 2, 3), Superseded(0x35, 4, 0x10, 3, 2), Malformed(0x34, 5),
           Truncated(0x10, 0, 512)])
  {
    hide DecodeRequest, FromBigEndian;
    DownloadDecodes();
    UploadRequestDecodes();
    CutShort();
    var t0 := Transfer(false, 0x10, 2, 0, 0, 0x11, 0x36, 0, 0, [], 1, -1);
    var t1 := t0.(payload := [7], receivedSize := 1, blockCount := 1);
    var t2 := t1.(payload := [7, 8, 9], receivedSize := 3, blockCount := 2);
    var u := Transfer(true, 0x10, 512, 0, 0, 0x21, 0x36, 0, 0, [], 4, -1);
    var b, c: Message := Message(2, [0x36, 1, 7]), Message(3, [0xB6, 3, 8, 9]);
    var mixed, gap, over := MixedSid(3, 0x36, 0xB6), SeqGap(3, 2, 3), Superseded(0x35, 4, 0x10, 3, 2);
    var w1 := Walk([], Some(t0), None, []);
    var w2 := Walk([], Some(t1), Some(1), []);
    var w3 := Walk([], Some(t2), Some(3), [mixed, gap]);
    var w4 := Walk([t2], Some(u), None, [mixed, gap, over]);
    assert OnMessage(Start, Message(1, DOWNLOAD)) == w1;
    assert b.app[2..] == [7] && c.app[2..] == [8, 9];
    assert OnBlock(t0, None, b.app) == t1 && OnMessage(w1, b) == w2;
    assert [7] + [8, 9] == [7, 8, 9] && OnBlock(t1, Some(1), c.app) == t2;
    assert [] + [mixed] + [gap] == [mixed, gap] && OnMessage(w2, c) == w3;
    assert OnMessage(w3, Message(4, UPLOAD_REQUEST)) == w4;
    assert OnMessage(w4, Message(5, [0x34, 0])) == w4.(warnings := [mixed, gap, over, Malformed(0x34, 5)]);
    WalkFive(Start, Message(1, DOWNLOAD), b, c, Message(4, UPLOAD_REQUEST), Message(5, [0x34, 0]));
    var end := Finish(w4.(warnings := [mixed, gap, over, Malformed(0x34, 5)]));
    assert end.0 == [t2, u];
    assert end.1 == [mixed, gap, over, Malformed(0x34, 5), Truncated(0x10, 0, 512)];
  }

  lemma CutShort()
    ensures DecodeRequest([0x34, 0]) == None
  {
  }

  lemma WalkFive(w: Walk, a: Message, b: Message, c: Message, d: Message, e: Message)
    ensures WalkAll(w, [a, b, c, d, e]) == OnMessage(OnMessage(OnMessage(OnMessage(OnMessage(w, a), b), c), d), e)
  {
    hide OnMessage;
    WalkCons(w, a, [b, c, d, e]);
    WalkFour(OnMessage(w, a), b, c, d, e);
    assert [a] + [b, c, d, e] == [a, b, c, d, e];
  }
}
