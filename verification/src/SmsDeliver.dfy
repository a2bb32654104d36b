/** Messages that the network delivers (GSM 03.40, section 9.2.2.1): the parser gives back what the
    layout puts in. */
module SmsDeliver {
  import opened Septets
  import opened SmsPdu

  // an SMS-DELIVER: first octet, originating address, protocol identifier, data coding scheme,
  // time stamp, length and user data
  datatype Deliver = Deliver(first: byte, addr: Addr, pid: byte, dcs: byte, stamp: seq<byte>,
        length: byte, data: seq<byte>)

  predicate Proper(d: Deliver) {
    && d.first & 3 == 0 && |d.addr.number| <= GSMD_ADDR_MAXLEN && Digits(d.addr.number)
    && d.addr.toa & TON_MASK != TON_ALPHANUMERIC && |d.stamp| == 7 && Coding(d.dcs).Ok?
    && |d.data| == DataBytes(Coding(d.dcs).value, d.length) <= GSMD_SMS_DATA_MAXLEN
  }

  // from the protocol identifier on
  function Body(d: Deliver): seq<byte> {
    [d.pid, d.dcs] + d.stamp + [d.length] + d.data
  }

  function Tpdu(d: Deliver): seq<byte> {
    [d.first, ByteOf(|d.addr.number|), d.addr.toa] + EncodedDigits(d.addr.number) + Body(d)
  }

  lemma BodyBack(d: Deliver, rest: seq<byte>)
    requires Proper(d)
    ensures var t := Body(d) + rest;
      && |Body(d)| == 10 + |d.data|
      && Delivered(d.first & 0x40 != 0, t, |Body(d)|, d.addr) == Given(d)
  {
    var t := Body(d) + rest;
    assert t[0] == d.pid && t[1] == d.dcs && t[2..9] == d.stamp && t[9] == d.length;
    assert t[10..10 + |d.data|] == d.data;
    UserDataBack(d.addr, d.first & 0x40 != 0, Coding(d.dcs).value, t, 9);
  }

  lemma Parts(first: byte, n: byte, toa: byte, digits: seq<byte>, tail: seq<byte>)
    ensures var s := [first, n, toa] + digits + tail;
      && s[0] == first && s[1] == n && s[1..][0] == n && s[1..][1] == toa
      && s[1..][2..2 + |digits|] == digits && s[3 + |digits|..] == tail
  {
    var s := [first, n, toa] + digits + tail;
    assert s[1..][2..2 + |digits|] == s[3..3 + |digits|];
  }

  lemma Addressed(s: seq<byte>, n: nat, left: nat, addr: Addr)
    requires |s| >= left >= 13 + n && n == NumberBytes(s[1] as int)
    requires HasAddress(s[1..]) && AsciiAddress(s[1..]) == Ok(addr)
    ensures AsDeliver(s, left) == Delivered(s[0] & 0x40 != 0, s[3 + n..], left - (3 + n), addr)
  {
  }

  // the message as the parser should give it back
  function Given(d: Deliver): Parsed
    requires Coding(d.dcs).Ok?
  {
    Delivery(Message(d.addr, d.first & 0x40 != 0, Coding(d.dcs).value, d.length, d.data), d.stamp,
             Voicemail(d.pid, d.dcs))
  }

  lemma AddressBack(d: Deliver, s: seq<byte>, tail: seq<byte>)
    requires |d.addr.number| <= GSMD_ADDR_MAXLEN && Digits(d.addr.number) && d.addr.toa & TON_MASK != TON_ALPHANUMERIC
    requires s == [d.first, ByteOf(|d.addr.number|), d.addr.toa] + EncodedDigits(d.addr.number) + tail && |tail| > 0
    ensures s[1] as int == |d.addr.number| && HasAddress(s[1..]) && AsciiAddress(s[1..]) == Ok(d.addr)
    ensures s[0] == d.first && s[3 + NumberBytes(|d.addr.number|)..] == tail
  {
    ByteBack(|d.addr.number|);
    Parts(d.first, ByteOf(|d.addr.number|), d.addr.toa, EncodedDigits(d.addr.number), tail);
    NumberBack(s[1..], d.addr.number);
  }

  lemma DeliverBack(d: Deliver, rest: seq<byte>)
    requires Proper(d)
    ensures |Tpdu(d)| == 3 + NumberBytes(|d.addr.number|) + |Body(d)| && Tpdu(d)[0] == d.first
    ensures AsDeliver(Tpdu(d) + rest, |Tpdu(d)|) == Given(d)
  {
    BodyBack(d, rest);
    var s := Tpdu(d) + rest;
    var tail := Body(d) + rest;
    assert s == [d.first, ByteOf(|d.addr.number|), d.addr.toa] + EncodedDigits(d.addr.number) + tail;
    AddressBack(d, s, tail);
    Addressed(s, NumberBytes(|d.addr.number|), |Tpdu(d)|, d.addr);
  }

  // the service centre is skipped
  lemma CentreSkipped(centre: seq<byte>, tpdu: seq<byte>, rest: seq<byte>)
    requires |centre| < 256 && tpdu != []
    ensures var pdu := [ByteOf(|centre|)] + centre + tpdu;
      PduToMsg(pdu + rest, |tpdu|, |pdu|) == AfterCentre(tpdu + rest, |tpdu|)
  {
    ByteBack(|centre|);
    var front := [ByteOf(|centre|)] + centre;
    var src := front + tpdu + rest;
    assert src == front + (tpdu + rest);
    assert src[|front|..] == tpdu + rest;
  }

  /** A delivered message behind its service centre comes back: address, header flag, alphabet,
      length, user data and time stamp, and whether it is about voice mail; whatever follows it in
      the buffer. */
  lemma ParseDelivery(d: Deliver, centre: seq<byte>, rest: seq<byte>)
    requires Proper(d) && |centre| < 256
    ensures var pdu := [ByteOf(|centre|)] + centre + Tpdu(d);
      PduToMsg(pdu + rest, |Tpdu(d)|, |pdu|)
      == Delivery(Message(d.addr, d.first & 0x40 != 0, Coding(d.dcs).value, d.length, d.data), d.stamp,
                  Voicemail(d.pid, d.dcs))
  {
    DeliverBack(d, rest);
    CentreSkipped(centre, Tpdu(d), rest);
    IsDeliver(Tpdu(d) + rest, |Tpdu(d)|);
  }

  lemma IsDeliver(s: seq<byte>, left: nat)
    requires 1 <= left <= |s| && s[0] & 3 == 0
    ensures AfterCentre(s, left) == AsDeliver(s, left)
  {
  }
}
