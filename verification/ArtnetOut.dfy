/** A pixel frame cut into ArtDmx packets.  */
module ArtnetOutputs {
  import opened Arithmetic

  const DMX_PER_PACKET: nat := 510
  const HEADER_BYTES: nat := 18

  /** "Art-Net" and a zero byte. */
  const ART_NET_ID: seq<nat> := [65, 114, 116, 45, 78, 101, 116, 0]

  // ---- The wire format (Art-Net 4, ArtDmx packet definition) ----

  datatype Dmx = Dmx(sequence: nat, physical: nat, portAddress: nat, data: seq<nat>)

  /** OpDmx is 0x5000, low byte first; the protocol version is 14 or later and, like the length,
      high byte first; the port address is low byte first. */
  function Parse(p: seq<nat>): (r: seq<Dmx>)
    ensures |r| <= 1
  {
    if |p| < HEADER_BYTES || p[..8] != ART_NET_ID || p[8] + 256 * p[9] != 0x5000 || 256 * p[10] + p[11] < 14 then []
    else if |p| != HEADER_BYTES + 256 * p[16] + p[17] then []
    else [Dmx(p[12], p[13], p[14] + 256 * p[15], p[HEADER_BYTES..])]
  }

  /** The frame's k-th piece. */
  function Chunk(frame: seq<nat>, k: nat): seq<nat> {
    if |frame| <= k * DMX_PER_PACKET then []
    else if |frame| - k * DMX_PER_PACKET > DMX_PER_PACKET then frame[k * DMX_PER_PACKET..(k + 1) * DMX_PER_PACKET]
    else frame[k * DMX_PER_PACKET..]
  }

  /** The part of a frame that is sent: its length is cut to 32 bits. */
  function Sendable(frame: seq<nat>): seq<nat> {
    frame[..|frame| % WORD]
  }

  lemma CutPiece(frame: seq<nat>, from: nat, n: nat)
    requires from + n <= |frame| % WORD
    ensures |Sendable(frame)| == |frame| % WORD && Sendable(frame)[from..from + n] == frame[from..from + n]
  {
  }

  function Count(bytes: nat): nat {
    (bytes + DMX_PER_PACKET - 1) / DMX_PER_PACKET
  }

  function Header(universe: nat, length: nat): (h: seq<nat>)
    ensures |h| == HEADER_BYTES
  {
    ART_NET_ID + [0x00, 0x50, 0x00, 0x0e, 0, 0, universe, 0, length / 256, length % 256]
  }

  /** A packet decodes to its universe and its piece of the frame. */
  lemma PacketParses(universe: nat, data: seq<nat>)
    requires universe < 256 && |data| <= DMX_PER_PACKET
    ensures Parse(Header(universe, |data|) + data) == [Dmx(0, 0, universe, data)]
  {
    var p := Header(universe, |data|) + data;
    assert p[..8] == ART_NET_ID && p[HEADER_BYTES..] == data;
  }

  /** The universe number is an 8-bit counter. */
  function UniverseOf(first: nat, k: nat): nat {
    (first + k) % 256
  }

  lemma HeaderIs(p: seq<nat>, uni: nat, n: nat)
    requires |p| == HEADER_BYTES && n <= DMX_PER_PACKET && p[..8] == ART_NET_ID
    requires p[8] == 0x00 && p[9] == 0x50 && p[10] == 0x00 && p[11] == 0x0e && p[12] == p[13] == 0 && p[14] == uni && p[15] == 0
    requires p[16] == n / 256 % 256 && p[17] == n % 256
    ensures p == Header(uni, n)
  {
    var rest := [0x00, 0x50, 0x00, 0x0e, 0, 0, uni, 0, n / 256, n % 256];
    assert p[8..] == rest;
    assert p == p[..8] + p[8..];
  }

  class ArtnetOut {
    const packet: array<nat>
    var universe: nat

    constructor (first: nat)
      ensures packet.Length == HEADER_BYTES + DMX_PER_PACKET && universe == first && fresh(packet)
    {
      universe := first;
      packet := new nat[HEADER_BYTES + DMX_PER_PACKET](_ => 0);
    }

    /** Send a frame, cut to a 32-bit length. The result are the packets in the order they are sent. */
    method SendFrame(frame: seq<nat>) returns (sent: seq<seq<nat>>)
      requires packet.Length == HEADER_BYTES + DMX_PER_PACKET
      modifies packet
      ensures |sent| == (|frame| % WORD + 509) / 510
      ensures forall k :: 0 <= k < |sent| ==>
                510 * k < |frame| % WORD && Parse(sent[k]) == [Dmx(0, 0, (universe + k) % 256, Chunk(Sendable(frame), k))]
    {
      hide Parse, Count, Chunk, Sent, UniverseOf, Header, Sendable;
      var totalBytes := |frame| % WORD;
      ghost var cut := Sendable(frame);
      CutPiece(frame, 0, 0);
      sent := [];
      var offset, uni := 0, universe % 256;
      SentNone(cut, universe);
      while offset < totalBytes
        invariant offset <= totalBytes && uni == UniverseOf(universe, |sent|) && Sent(cut, universe, sent, offset)
      {
        UniverseNext(universe, |sent|);
        var remaining := totalBytes - offset;
        var chunk := if remaining > DMX_PER_PACKET then DMX_PER_PACKET else remaining;
        PackHeader(uni, chunk);
        Fill(frame, offset, chunk);
        CutPiece(frame, offset, chunk);
        SentOneMore(cut, universe, sent, offset, chunk, packet[..HEADER_BYTES + chunk]);
        sent := sent + [packet[..HEADER_BYTES + chunk]];
        offset := offset + chunk;
        uni := (uni + 1) % 256;
      }
      SentAll(cut, universe, sent, offset);
    }

    /** The 18 header bytes. */
    method PackHeader(uni: nat, dmxLen: nat)
      requires packet.Length == HEADER_BYTES + DMX_PER_PACKET && dmxLen <= DMX_PER_PACKET
      modifies packet
      ensures packet[..HEADER_BYTES] == Header(uni, dmxLen)
    {
      for i := 0 to 8
        invariant packet[..i] == ART_NET_ID[..i]
      {
        packet[i] := ART_NET_ID[i];
      }
      assert packet[..8] == ART_NET_ID;
      packet[8], packet[9] := 0x00, 0x50;
      packet[10], packet[11] := 0x00, 0x0e;
      packet[12] := 0;
      packet[13] := 0;
      packet[14] := uni;
      packet[15] := 0;
      packet[16] := dmxLen / 256 % 256;
      packet[17] := dmxLen % 256;
      HeaderIs(packet[..HEADER_BYTES], uni, dmxLen);
    }

    /** A piece of the frame behind the header. */
    method Fill(frame: seq<nat>, offset: nat, n: nat)
      requires packet.Length == HEADER_BYTES + DMX_PER_PACKET && n <= DMX_PER_PACKET && offset + n <= |frame|
      modifies packet
      ensures packet[..HEADER_BYTES + n] == old(packet[..HEADER_BYTES]) + frame[offset..offset + n]
    {
      for i := 0 to n
        invariant packet[..HEADER_BYTES] == old(packet[..HEADER_BYTES])
        invariant packet[HEADER_BYTES..HEADER_BYTES + i] == frame[offset..offset + i]
      {
        packet[HEADER_BYTES + i] := frame[offset + i];
      }
      assert packet[..HEADER_BYTES + n] == packet[..HEADER_BYTES] + packet[HEADER_BYTES..HEADER_BYTES + n];
    }
  }

  /** The packets so far carry the frame's first pieces, up to offset. */
  ghost predicate Sent(frame: seq<nat>, universe: nat, sent: seq<seq<nat>>, offset: nat) {
    && offset == (if |frame| < |sent| * DMX_PER_PACKET then |frame| else |sent| * DMX_PER_PACKET)
    && (|sent| > 0 ==> (|sent| - 1) * DMX_PER_PACKET < |frame|)
    && forall k :: 0 <= k < |sent| ==>
         k * DMX_PER_PACKET < |frame| && Parse(sent[k]) == [Dmx(0, 0, UniverseOf(universe, k), Chunk(frame, k))]
  }

  lemma SentOneMore(frame: seq<nat>, universe: nat, sent: seq<seq<nat>>, offset: nat, n: nat, p: seq<nat>)
    requires Sent(frame, universe, sent, offset) && offset < |frame|
    requires n == if |frame| - offset > DMX_PER_PACKET then DMX_PER_PACKET else |frame| - offset
    requires p == Header(UniverseOf(universe, |sent|), n) + frame[offset..offset + n]
    ensures Sent(frame, universe, sent + [p], offset + n) && offset + n <= |frame|
  {
    hide Parse, Chunk, Header;
    ChunkIs(frame, |sent|, n);
    PacketParses(UniverseOf(universe, |sent|), frame[offset..offset + n]);
  }

  lemma SentNone(frame: seq<nat>, universe: nat)
    ensures Sent(frame, universe, [], 0) && UniverseOf(universe, 0) == universe % 256
  {
  }

  lemma SentAll(frame: seq<nat>, universe: nat, sent: seq<seq<nat>>, offset: nat)
    requires Sent(frame, universe, sent, offset) && offset >= |frame|
    ensures |sent| == (|frame| + 509) / 510
    ensures forall k :: 0 <= k < |sent| ==>
              510 * k < |frame| && Parse(sent[k]) == [Dmx(0, 0, (universe + k) % 256, Chunk(frame, k))]
  {
    hide Parse, Chunk;
    CountIs(|frame|, |sent|);
  }

  lemma UniverseNext(first: nat, k: nat)
    ensures UniverseOf(first, k + 1) == (UniverseOf(first, k) + 1) % 256
  {
  }

  lemma ChunkIs(frame: seq<nat>, k: nat, n: nat)
    requires k * DMX_PER_PACKET < |frame|
    requires n == if |frame| - k * DMX_PER_PACKET > DMX_PER_PACKET then DMX_PER_PACKET else |frame| - k * DMX_PER_PACKET
    ensures frame[k * DMX_PER_PACKET..k * DMX_PER_PACKET + n] == Chunk(frame, k)
  {
  }

  lemma CountIs(bytes: nat, n: nat)
    requires bytes <= n * DMX_PER_PACKET && (n > 0 ==> (n - 1) * DMX_PER_PACKET < bytes)
    ensures n == Count(bytes)
  {
  }

  // ---- What the receivers get ----

  /** The first n pieces joined. */
  function Received(frame: seq<nat>, n: nat): seq<nat>
    requires n <= Count(|frame|)
  {
    if n == 0 then [] else Received(frame, n - 1) + Chunk(frame, n - 1)
  }

  /** The pieces in order are the frame, none empty or longer than 510 bytes. */
  lemma {:induction false} PiecesMakeTheFrame(frame: seq<nat>, n: nat)
    requires n <= Count(|frame|)
    ensures Received(frame, n) == if n * DMX_PER_PACKET < |frame| then frame[..n * DMX_PER_PACKET] else frame
    ensures n > 0 ==> 0 < |Chunk(frame, n - 1)| <= DMX_PER_PACKET
  {
    if n > 0 {
      hide Chunk, Count;
      PiecesMakeTheFrame(frame, n - 1);
      var start := (n - 1) * DMX_PER_PACKET;
      ChunkLength(frame, n - 1);
      var len := if |frame| - start > DMX_PER_PACKET then DMX_PER_PACKET else |frame| - start;
      ChunkIs(frame, n - 1, len);
      Glue(frame, start, len);
    }
  }

  lemma Glue(s: seq<nat>, start: nat, len: nat)
    requires start + len <= |s|
    ensures s[..start] + s[start..start + len] == s[..start + len] && (start + len == |s| ==> s[..start + len] == s)
  {
  }

  /** What the receivers get of a frame is the frame exactly when its length fits 32 bits. */
  lemma WholeFrameArrives(frame: seq<nat>)
    ensures Received(Sendable(frame), Count(|Sendable(frame)|)) == frame <==> |frame| < WORD
  {
    var cut := Sendable(frame);
    PiecesMakeTheFrame(cut, Count(|cut|));
    CountCovers(|cut|);
  }

  lemma CountCovers(bytes: nat)
    ensures Count(bytes) * DMX_PER_PACKET >= bytes
  {
  }

  /** A frame of whole pixels is cut between pixels: pixel q lies in one piece, all three bytes. */
  lemma PixelsStayWhole(frame: seq<nat>, q: nat)
    requires |frame| % 3 == 0 && 3 * q < |frame|
    ensures var k, i := q / 170, 3 * (q % 170);
            k < Count(|frame|) && i + 3 <= |Chunk(frame, k)| && Chunk(frame, k)[i..i + 3] == frame[3 * q..3 * q + 3]
  {
    hide Count, Chunk;
    var k, i := q / 170, 3 * (q % 170);
    assert k * DMX_PER_PACKET + i == 3 * q;
    LastPiece(|frame|, k);
    ChunkIs(frame, k, if |frame| - k * DMX_PER_PACKET > DMX_PER_PACKET then DMX_PER_PACKET else |frame| - k * DMX_PER_PACKET);
    SliceOfSlice(frame, k * DMX_PER_PACKET, k * DMX_PER_PACKET + |Chunk(frame, k)|, i);
  }

  lemma LastPiece(bytes: nat, k: nat)
    requires k * DMX_PER_PACKET < bytes
    ensures k < Count(bytes)
  {
  }

  lemma SliceOfSlice(s: seq<nat>, lo: nat, hi: nat, i: nat)
    requires lo <= hi <= |s| && lo + i + 3 <= hi
    ensures s[lo..hi][i..i + 3] == s[lo + i..lo + i + 3]
  {
    var t := s[lo..hi];
    assert forall j :: 0 <= j < |t| ==> t[j] == s[lo + j];
    var a, b := t[i..i + 3], s[lo + i..lo + i + 3];
    assert |a| == |b| == 3 && a[0] == b[0] && a[1] == b[1] && a[2] == b[2];
  }

  /** The standard asks for even data lengths: all are even exactly when the frame's is, so a panel
      with an odd number of pixels ends in an odd packet. */
  lemma LengthsAreEven(frame: seq<nat>)
    ensures (forall k :: 0 <= k < Count(|frame|) ==> |Chunk(frame, k)| % 2 == 0) <==> |frame| % 2 == 0
  {
    hide Chunk, Count;
    var n := Count(|frame|);
    forall k | 0 <= k < n ensures k < n - 1 ==> |Chunk(frame, k)| % 2 == 0 {
      ChunkLength(frame, k);
    }
    if n > 0 {
      ChunkLength(frame, n - 1);
    }
    NoPackets(frame);
  }

  lemma ChunkLength(frame: seq<nat>, k: nat)
    requires k < Count(|frame|)
    ensures k * DMX_PER_PACKET < |frame|
    ensures |Chunk(frame, k)| == if k == Count(|frame|) - 1 then |frame| - k * DMX_PER_PACKET else DMX_PER_PACKET
  {
  }

  lemma NoPackets(frame: seq<nat>)
    ensures Count(|frame|) == 0 <==> |frame| == 0
  {
  }

  /** The packets carry distinct universe numbers exactly when there are at most 256 of them. */
  lemma UniversesDistinct(first: nat, n: nat)
    ensures (forall j: nat, k: nat :: j < k < n ==> UniverseOf(first, j) != UniverseOf(first, k)) <==> n <= 256
  {
    if n > 256 {
      var j: nat, k: nat := 0, 256;
      assert j < k < n && UniverseOf(first, j) == UniverseOf(first, k);
    } else {
      forall j: nat, k: nat | j < k < n ensures UniverseOf(first, j) != UniverseOf(first, k) {
        NoWrap(first + j, k - j);
      }
    }
  }

  lemma NoWrap(a: nat, d: nat)
    requires 0 < d < 256
    ensures a % 256 != (a + d) % 256
  {
  }
}
