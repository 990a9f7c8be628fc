/** The MoldUDP64 downstream packet header: a 10-byte session, an 8-byte
    sequence number and a 2-byte message count, all big-endian. */
module MoldUdp64 {
  import opened Utils
  import opened Constants

  /** `DownstreampacketHeader`: a read-only view of the header's 20 bytes. */
  datatype DownstreamPacketHeader = DownstreamPacketHeader(bytes: seq<byte>)
  {
    predicate Valid()
    {
      |bytes| == DownstreamPacketHeaderLength
    }

    /** `get_session`: the ten session bytes as characters, padding kept. */
    function GetSession(): (s: seq<Char>)
      requires Valid()
      ensures |s| == SessionLength
      ensures forall i :: 0 <= i < SessionLength ==> s[i] as int == bytes[i]
    {
      seq(SessionLength, i requires 0 <= i < SessionLength => bytes[i] as char)
    }

    /** `get_sequence_number`: bytes 10 to 17 carry it big-endian. */
    function GetSequenceNumber(): (n: Numeric8)
      requires Valid()
      ensures ToBigEndian(SequenceNumberLength, n) == bytes[SessionLength..SessionLength + SequenceNumberLength]
    {
      var field := bytes[SessionLength..SessionLength + SequenceNumberLength];
      Pow256Widths();
      BigEndianUnique(field);
      FromBigEndian(field)
    }

    /** `get_message_count`: bytes 18 and 19 carry it big-endian. */
    function GetMessageCount(): (n: Numeric2)
      requires Valid()
      ensures ToBigEndian(MessageCountLength, n) == bytes[SessionLength + SequenceNumberLength..]
    {
      var field := bytes[SessionLength + SequenceNumberLength..];
      Pow256Widths();
      BigEndianUnique(field);
      FromBigEndian(field)
    }
  }

  /** The header that carries the given session, sequence number and count. */
  function EncodeHeader(session: seq<Char>, sequenceNumber: Numeric8, messageCount: Numeric2): (h: DownstreamPacketHeader)
    requires |session| == SessionLength
    ensures h.Valid()
    ensures h.GetSession() == session
    ensures h.GetSequenceNumber() == sequenceNumber
    ensures h.GetMessageCount() == messageCount
  {
    Pow256Widths();
    var sessionBytes := seq(SessionLength, i requires 0 <= i < SessionLength => session[i] as int);
    var h := DownstreamPacketHeader(sessionBytes + ToBigEndian(8, sequenceNumber) + ToBigEndian(2, messageCount));
    assert h.bytes[SessionLength..SessionLength + SequenceNumberLength] == ToBigEndian(8, sequenceNumber);
    assert h.bytes[SessionLength + SequenceNumberLength..] == ToBigEndian(2, messageCount);
    h
  }

  /** A header is determined by what its getters return. */
  lemma HeaderFromGetters(h: DownstreamPacketHeader)
    requires h.Valid()
    ensures EncodeHeader(h.GetSession(), h.GetSequenceNumber(), h.GetMessageCount()) == h
  {
    var e := EncodeHeader(h.GetSession(), h.GetSequenceNumber(), h.GetMessageCount());
    assert e.bytes[..SessionLength] == h.bytes[..SessionLength];
    assert e.bytes == e.bytes[..SessionLength] + e.bytes[SessionLength..SessionLength + SequenceNumberLength] + e.bytes[SessionLength + SequenceNumberLength..];
    assert h.bytes == h.bytes[..SessionLength] + h.bytes[SessionLength..SessionLength + SequenceNumberLength] + h.bytes[SessionLength + SequenceNumberLength..];
  }
}
