/** SMS-SUBMIT as octets (GSM 03.40, section 9.2.2.2), its hexadecimal form on the wire, and the
    parsers of both, which also take delivered messages and status reports. */
module SmsPdu {
  import opened Septets

  const GSMD_ADDR_MAXLEN: nat := 32
  const SMS_MAX_PDU_SIZE: nat := 180

  const ALPHABET_DEFAULT: byte := 0x00
  const ALPHABET_8BIT: byte := 0x04
  const ALPHABET_UCS2: byte := 0x40

  const TON_MASK: byte := 0x70
  const TON_ALPHANUMERIC: byte := 0x50

  datatype Result<T> = Ok(value: T) | Err

  // struct gsmd_addr; the number is a C string
  datatype Addr = Addr(toa: byte, number: seq<byte>)

  // struct gsmd_sms_submit
  datatype Submit = Submit(addr: Addr, askDs: bool, hasHeader: bool, coding: byte, length: byte, data: seq<byte>)

  // struct gsmd_sms_list, as far as an SMS-SUBMIT and an SMS-DELIVER both fill it
  datatype Message = Message(addr: Addr, hasHeader: bool, coding: byte, length: byte, data: seq<byte>)

  // sms_number_bytelen: both branches of its switch compute this
  function NumberBytes(digits: nat): nat { (digits + 1) / 2 }

  // sms_data_bytelen
  function DataBytes(coding: byte, length: byte): nat {
    if coding == ALPHABET_DEFAULT then Octets(length as int)
    else if coding == ALPHABET_8BIT then length as int
    else if coding == ALPHABET_UCS2 then length as int * 2
    else 0
  }

  // ---------------------------------------------------------------- digits, two to an octet

  predicate IsDigit(c: byte) { 0x30 <= c <= 0x39 }

  predicate Digits(s: seq<byte>) { forall c :: c in s ==> IsDigit(c) }

  // two digits, the first in the low half; a missing second one is filled with ones
  function Pair(s: seq<byte>, i: nat): byte
    requires i < |s|
  {
    if i + 1 < |s| then (s[i] - 0x30) | ((s[i + 1] - 0x30) << 4) else (s[i] - 0x30) | 0xf0
  }

  function EncodedDigits(s: seq<byte>): seq<byte> {
    seq(NumberBytes(|s|), k requires 0 <= k < NumberBytes(|s|) => Pair(s, 2 * k))
  }

  // digit i of an address field
  function DigitAt(src: seq<byte>, i: nat): byte
    requires i / 2 < |src|
  {
    0x30 + ((if i % 2 == 0 then src[i / 2] else src[i / 2] >> 4) & 0xf)
  }

  function DecodedDigits(src: seq<byte>, n: nat): seq<byte>
    requires NumberBytes(n) <= |src|
  {
    seq(n, i requires 0 <= i < n => DigitAt(src, i))
  }

  lemma PairBack(x: byte, y: byte)
    requires IsDigit(x)
    ensures 0x30 + (((x - 0x30) | 0xf0) & 0xf) == x
    ensures IsDigit(y) ==> 0x30 + (((x - 0x30) | ((y - 0x30) << 4)) & 0xf) == x
    ensures IsDigit(y) ==> 0x30 + ((((x - 0x30) | ((y - 0x30) << 4)) >> 4) & 0xf) == y
  {
  }

  /** The digits of a number come back from their semi-octets. */
  lemma DigitsBack(s: seq<byte>, src: seq<byte>)
    requires Digits(s) && |src| >= NumberBytes(|s|) && src[..NumberBytes(|s|)] == EncodedDigits(s)
    ensures DecodedDigits(src, |s|) == s
  {
    forall i | 0 <= i < |s| ensures DigitAt(src, i) == s[i] {
      var k := i / 2;
      assert s[2 * k] in s && src[k] == EncodedDigits(s)[k] == Pair(s, 2 * k);
      if 2 * k + 1 < |s| {
        assert s[2 * k + 1] in s;
        PairBack(s[2 * k], s[2 * k + 1]);
      } else {
        PairBack(s[2 * k], 0x30);
      }
    }
  }

  // ---------------------------------------------------------------- addresses

  /** The loop over an alphanumeric address runs exactly as often as whole characters fit. */
  lemma AlphaLoop(n: nat, i: nat)
    ensures (i * 7 + 3) / 4 < n <==> i < (4 * n + 3) / 7
  {
  }

  /** An address of k characters in as few semi-octets as hold them, ceil(7k / 4), is read as
      exactly k characters (GSM 03.40, section 9.1.2.5). */
  lemma AlphaExact(k: nat, i: nat)
    ensures (i * 7 + 3) / 4 < (k * 7 + 3) / 4 <==> i < k
  {
  }

  // the number is there in full, and one octet more, which unpacking may look at
  predicate HasAddress(src: seq<byte>) {
    |src| >= 2 && (src[0] as int <= GSMD_ADDR_MAXLEN ==> |src| > 2 + NumberBytes(src[0] as int))
  }

  // sms_address2ascii: src is the length in semi-octets, the type of address, and the number
  function AsciiAddress(src: seq<byte>): Result<Addr>
    requires HasAddress(src)
  {
    var n := src[0] as int;
    if n > GSMD_ADDR_MAXLEN then Err
    else if src[1] & TON_MASK == TON_ALPHANUMERIC then Ok(Addr(src[1], Unpack(src[2..], 0, (4 * n + 3) / 7)))
    else Ok(Addr(src[1], DecodedDigits(src[2..], n)))
  }

  // the loop of sms_address2ascii over the characters of an alphanumeric address
  method ReadCharacters(d: seq<byte>, n: nat, number: array<byte>) returns (i: nat)
    requires n <= GSMD_ADDR_MAXLEN < number.Length && |d| > NumberBytes(n)
    modifies number
    ensures i == (4 * n + 3) / 7 < number.Length && number[..i] == Unpack(d, 0, i)
  {
    i := 0;
    while (i * 7 + 3) / 4 < n
      invariant 0 <= i <= (4 * n + 3) / 7
      invariant number[..i] == Unpack(d, 0, i)
      decreases (4 * n + 3) / 7 - i
    {
      AlphaLoop(n, i);
      UnpackMore(d, 0, i);
      ghost var was := number[..i];
      number[i] := UnpackedAt(d, i);
      assert number[..i + 1] == was + [UnpackedAt(d, i)];
      i := i + 1;
    }
    AlphaLoop(n, i);
  }

  // the loop of sms_address2ascii over the digits of a number
  method ReadDigits(d: seq<byte>, n: nat, number: array<byte>)
    requires n <= GSMD_ADDR_MAXLEN < number.Length && |d| > NumberBytes(n)
    modifies number
    ensures number[..n] == DecodedDigits(d, n)
  {
    var i := 0;
    while i < n
      invariant 0 <= i <= n && forall k :: 0 <= k < i ==> number[k] == DigitAt(d, k)
    {
      number[i] := DigitAt(d, i);
      i := i + 1;
    }
  }

  // sms_address2ascii
  method ReadAddress(src: seq<byte>) returns (r: Result<Addr>)
    requires HasAddress(src)
    ensures r == AsciiAddress(src)
  {
    var n := src[0] as int;
    if n > GSMD_ADDR_MAXLEN { return Err; }
    var number := new byte[GSMD_ADDR_MAXLEN + 1];
    var i := n;
    if src[1] & TON_MASK == TON_ALPHANUMERIC {
      i := ReadCharacters(src[2..], n, number);
    } else {
      ReadDigits(src[2..], n, number);
    }
    ghost var read := number[..i];
    number[i] := 0;
    assert number[..i] == read;
    r := Ok(Addr(src[1], number[..i]));
  }

  /** An alphanumeric address comes back from its packed characters, whatever follows them. */
  lemma AlphaAddressBack(t: seq<byte>, src: seq<byte>)
    requires Text(t) && HasAddress(src) && src[0] as int == (|t| * 7 + 3) / 4 <= GSMD_ADDR_MAXLEN
    requires src[1] & TON_MASK == TON_ALPHANUMERIC
    requires |src[2..]| > Octets(StoredLength(|t|)) && src[2..][..|Pack(t)|] == Pack(t)
    ensures AsciiAddress(src) == Ok(Addr(src[1], t))
  {
    AlphaChars(|t|);
    UnpackText(t, src[2..]);
  }

  lemma AlphaChars(k: nat)
    ensures (4 * ((k * 7 + 3) / 4) + 3) / 7 == k
  {
    var n := (k * 7 + 3) / 4;
    assert 4 * n <= 7 * k + 3 < 4 * n + 4;
  }

  lemma UnpackText(t: seq<byte>, d: seq<byte>)
    requires Text(t) && |d| > Octets(StoredLength(|t|)) && d[..|Pack(t)|] == Pack(t)
    ensures Unpack(d, 0, |t|) == t
  {
    var u := Unpack(d, 0, |t|);
    forall i | 0 <= i < |t| ensures u[i] == t[i] {
      UnpackPack(t, d, i);
      assert t[i] in t;
      SevenBit(t[i]);
    }
  }

  // ---------------------------------------------------------------- encoding

  // an int stored in an octet
  function ByteOf(n: nat): byte {
    if n == 0 then 0 else ByteOf(n - 1) + 1
  }

  lemma {:induction false} ByteBack(n: nat)
    requires n < 256
    ensures ByteOf(n) as int == n
  {
    if n > 0 {
      ByteBack(n - 1);
      Successor(ByteOf(n - 1));
    }
  }

  lemma Successor(b: byte)
    requires b < 255
    ensures (b + 1) as int == b as int + 1
  {
  }

  // SMS-SUBMIT, with the bits for a status report and for a user data header
  function Flags(askDs: bool, hasHeader: bool): byte {
    0x01 | (if askDs then 0x20 else 0x00) | (if hasHeader then 0x40 else 0x00)
  }

  // the octets in front of the user data
  function Header(s: Submit): seq<byte>
    requires |s.addr.number| <= GSMD_ADDR_MAXLEN
  {
    [0x00,
     Flags(s.askDs, s.hasHeader),
     0x00,
     ByteOf(|s.addr.number|),
     s.addr.toa]
    + EncodedDigits(s.addr.number)
    + [0x00, s.coding, s.length]
  }

  function Encoded(s: Submit): seq<byte>
    requires |s.addr.number| <= GSMD_ADDR_MAXLEN && DataBytes(s.coding, s.length) <= |s.data|
  {
    Header(s) + s.data[..DataBytes(s.coding, s.length)]
  }

  function HexDigit(n: byte): char
    requires n < 16
  {
    if n < 10 then '0' + (n as int) as char else 'A' + (n as int - 10) as char
  }

  // sprintf("%02X")
  function Hex(b: byte): string { [HexDigit(b >> 4), HexDigit(b & 0xf)] }

  function HexAll(bs: seq<byte>): string {
    if bs == [] then "" else Hex(bs[0]) + HexAll(bs[1..])
  }

  lemma {:induction false} HexConcat(a: seq<byte>, b: seq<byte>)
    ensures HexAll(a + b) == HexAll(a) + HexAll(b)
  {
    if a == [] {
      assert a + b == b;
    } else {
      assert (a + b)[0] == a[0] && (a + b)[1..] == a[1..] + b;
      HexConcat(a[1..], b);
    }
  }

  // the loop of sms_pdu_make_smssubmit over the digits of the number
  method EncodeNumber(header: array<byte>, number: seq<byte>) returns (pos: nat)
    requires header.Length >= 5 + GSMD_ADDR_MAXLEN && |number| <= GSMD_ADDR_MAXLEN
    modifies header
    ensures pos == 5 + NumberBytes(|number|)
    ensures header[..pos] == old(header[..5]) + EncodedDigits(number)
  {
    pos := 5;
    var i := 0;
    while i < |number|
      invariant i == 2 * (pos - 5) && 5 <= pos && i <= |number|
      invariant header[..5] == old(header[..5])
      invariant forall k :: 5 <= k < pos ==> header[k] == Pair(number, 2 * (k - 5))
      decreases |number| - i
    {
      header[pos] := number[i] - 0x30;
      i := i + 1;
      if i < |number| {
        header[pos] := header[pos] | ((number[i] - 0x30) << 4);
        pos := pos + 1;
      } else {
        header[pos] := header[pos] | 0xf0;
        pos := pos + 1;
        break;
      }
      i := i + 1;
    }
    assert header[..pos] == header[..5] + header[5..pos];
    ghost var digits := EncodedDigits(number);
    forall k | 0 <= k < |digits| ensures header[5..pos][k] == digits[k] {
      assert header[5 + k] == Pair(number, 2 * k);
    }
    assert header[5..pos] == digits;
  }

  // one of these loops
  method PrintHex(dest: string, bs: seq<byte>) returns (out: string)
    ensures out == dest + HexAll(bs)
  {
    out := dest;
    var i := 0;
    while i < |bs|
      invariant 0 <= i <= |bs| && out == dest + HexAll(bs[..i])
    {
      HexConcat(bs[..i], [bs[i]]);
      assert bs[..i + 1] == bs[..i] + [bs[i]];
      assert HexAll([bs[i]]) == Hex(bs[i]) + HexAll([]);
      out := out + Hex(bs[i]);
      i := i + 1;
    }
    assert bs[..i] == bs;
  }

  // the octets of the local header array before the number
  method FillFront(header: array<byte>, flags: byte, count: byte, toa: byte)
    requires header.Length >= 5
    modifies header
    ensures header[..5] == [0x00, flags, 0x00, count, toa]
  {
    header[0] := 0x00;
    header[1] := flags;
    header[2] := 0x00;
    header[3] := count;
    header[4] := toa;
  }

  // and those after it
  method FillBack(header: array<byte>, pos: nat, coding: byte, length: byte)
    requires pos + 3 <= header.Length
    modifies header
    ensures header[..pos + 3] == old(header[..pos]) + [0x00, coding, length]
  {
    header[pos] := 0x00;
    header[pos + 1] := coding;
    header[pos + 2] := length;
  }

  // the part of sms_pdu_make_smssubmit that fills the local header array
  method FillHeader(header: array<byte>, src: Submit) returns (pos: nat)
    requires header.Length == 15 + GSMD_ADDR_MAXLEN && |src.addr.number| <= GSMD_ADDR_MAXLEN
    modifies header
    ensures pos <= header.Length && header[..pos] == Header(src)
  {
    FillFront(header, Flags(src.askDs, src.hasHeader), ByteOf(|src.addr.number|), src.addr.toa);
    pos := EncodeNumber(header, src.addr.number);
    FillBack(header, pos, src.coding, src.length);
    pos := pos + 3;
  }

  // sms_pdu_make_smssubmit; `dest` is NULL when nothing is to be printed
  method MakeSmsSubmit(dest: bool, src: Submit) returns (out: string, count: nat)
    requires |src.addr.number| <= GSMD_ADDR_MAXLEN && DataBytes(src.coding, src.length) <= |src.data|
    ensures count == |Encoded(src)|
    ensures out == if dest then HexAll(Encoded(src)) else ""
  {
    var header := new byte[15 + GSMD_ADDR_MAXLEN];
    var pos := FillHeader(header, src);
    var len := DataBytes(src.coding, src.length);
    out := "";
    if dest { out := PrintBoth(header[..pos], src.data[..len]); }
    count := pos + len;
  }

  // the two loops of sms_pdu_make_smssubmit that print
  method PrintBoth(header: seq<byte>, data: seq<byte>) returns (out: string)
    ensures out == HexAll(header + data)
  {
    out := PrintHex("", header);
    out := PrintHex(out, data);
    HexConcat(header, data);
  }

  // ---------------------------------------------------------------- reading hexadecimal

  function CharOr0(s: string, i: nat): char { if i < |s| then s[i] else '\0' }

  function HexValue(c: char): Result<byte> {
    if '0' <= c <= '9' then Ok((c as int - '0' as int) as byte)
    else if 'A' <= c <= 'F' then Ok((c as int - 'A' as int + 10) as byte)
    else if 'a' <= c <= 'f' then Ok((c as int - 'a' as int + 10) as byte)
    else Err
  }

  // sscanf("%2hhX") on two characters from '0' on
  function ScanHex(a: char, b: char): Result<byte> {
    match HexValue(a)
    case Err => Err
    case Ok(x) =>
      match HexValue(b)
      case Err => Ok(x)
      case Ok(y) => Ok((x << 4) | y)
  }

  // the octets read from position cr on, at most `room` of them
  function ReadHex(resp: string, cr: nat, room: nat): Result<seq<byte>>
    decreases room
  {
    if CharOr0(resp, cr) < '0' || CharOr0(resp, cr + 1) < '0' || room == 0 then Ok([])
    else
      match ScanHex(resp[cr], resp[cr + 1])
      case Err => Err
      case Ok(b) =>
        After([b], ReadHex(resp, cr + 2, room - 1))
  }

  function After(done: seq<byte>, r: Result<seq<byte>>): Result<seq<byte>> {
    match r
    case Err => Err
    case Ok(bs) => Ok(done + bs)
  }

  lemma AfterMore(done: seq<byte>, b: byte, r: Result<seq<byte>>)
    ensures After(done + [b], r) == After(done, After([b], r))
  {
    if r.Ok? { assert done + [b] + r.value == done + ([b] + r.value); }
  }

  // the loop of sms_list_cb, sms_read_cb and cmt_parse that reads a PDU
  method ReadPdu(resp: string, start: nat) returns (r: Result<seq<byte>>)
    ensures r == ReadHex(resp, start, SMS_MAX_PDU_SIZE)
  {
    var pdu := new byte[SMS_MAX_PDU_SIZE];
    var i: nat, cr: nat := 0, start;
    assert forall bs: seq<byte> :: pdu[..0] + bs == bs;
    while CharOr0(resp, cr) >= '0' && CharOr0(resp, cr + 1) >= '0' && i < SMS_MAX_PDU_SIZE
      invariant 0 <= i <= SMS_MAX_PDU_SIZE
      invariant ReadHex(resp, start, SMS_MAX_PDU_SIZE) == After(pdu[..i], ReadHex(resp, cr, SMS_MAX_PDU_SIZE - i))
      decreases SMS_MAX_PDU_SIZE - i
    {
      var b := ScanHex(resp[cr], resp[cr + 1]);
      if b == Err { return Err; }
      ghost var was := pdu[..i];
      pdu[i] := b.value;
      assert pdu[..i + 1] == was + [b.value];
      AfterMore(was, b.value, ReadHex(resp, cr + 2, SMS_MAX_PDU_SIZE - i - 1));
      cr := cr + 2;
      i := i + 1;
    }
    r := Ok(pdu[..i]);
    assert pdu[..i] + [] == pdu[..i];
  }

  lemma HexBack(b: byte)
    ensures HexDigit(b >> 4) >= '0' && HexDigit(b & 0xf) >= '0'
    ensures ScanHex(HexDigit(b >> 4), HexDigit(b & 0xf)) == Ok(b)
  {
    HexValueBack(b >> 4);
    HexValueBack(b & 0xf);
    assert ((b >> 4) << 4) | (b & 0xf) == b;
  }

  lemma HexValueBack(n: byte)
    requires n < 16
    ensures HexDigit(n) >= '0' && HexValue(HexDigit(n)) == Ok(n)
  {
  }

  /** Reading inverts printing: the octets come back from their hexadecimal form, up to the end
      of the text or to a line feed. */
  lemma {:induction false} ReadHexAll(before: string, bs: seq<byte>, after: string, room: nat)
    requires |bs| <= room && (after == "" || after[0] < '0')
    ensures ReadHex(before + HexAll(bs) + after, |before|, room) == Ok(bs)
    decreases |bs|
  {
    if bs == [] {
      assert HexAll(bs) == "" && before + "" + after == before + after;
    } else {
      var tail := HexAll(bs[1..]) + after;
      assert before + HexAll(bs) + after == before + Hex(bs[0]) + tail;
      ReadHexOne(before, bs[0], tail, room);
      assert (before + Hex(bs[0])) + HexAll(bs[1..]) + after == before + Hex(bs[0]) + tail;
      ReadHexAll(before + Hex(bs[0]), bs[1..], after, room - 1);
      assert [bs[0]] + bs[1..] == bs;
    }
  }

  lemma ReadHexOne(before: string, b: byte, tail: string, room: nat)
    requires room > 0
    ensures var resp := before + Hex(b) + tail;
      ReadHex(resp, |before|, room) == After([b], ReadHex(resp, |before| + 2, room - 1))
  {
    HexBack(b);
    var resp := before + Hex(b) + tail;
    assert resp[|before|] == Hex(b)[0] && resp[|before| + 1] == Hex(b)[1];
  }

  // ---------------------------------------------------------------- parsing

  // an SMS-SUBMIT, an SMS-DELIVER with its time stamp, a status report, or the error return
  datatype Parsed =
    | Msg(m: Message)
    | Delivery(d: Message, stamp: seq<byte>, voicemail: bool)
    | Report(addr: Addr, hasHeader: bool, index: byte, status: byte, at: seq<byte>)
    | Bad

  // the alphabet named by the data coding scheme octet, when it names one
  function Coding(dcs: byte): Result<byte> {
    var group := dcs >> 4;
    if group <= 3 || group == 0xc then Ok(dcs & 0xc)
    else if group == 0xd then Ok(ALPHABET_DEFAULT)
    else if group == 0xe then Ok(ALPHABET_UCS2)
    else if group == 0xf then Ok(if dcs & 4 != 0 then ALPHABET_8BIT else ALPHABET_DEFAULT)
    else Err
  }

  // sms_pdu_to_msg on the first len octets of src
  function PduToMsg(src: seq<byte>, pdulen: int, len: nat): Parsed
    requires len <= |src|
  {
    if len < 1 || len < 1 + src[0] as int + pdulen || pdulen < 1 then Bad
    else
      AfterCentre(src[1 + src[0] as int..], len - (1 + src[0] as int))
  }

  // the part of sms_pdu_to_msg after the service centre
  function AfterCentre(s: seq<byte>, left: nat): Parsed
    requires 1 <= left <= |s|
  {
    var mti := s[0] & 3;
    if mti == 1 then AsSubmit(s, left)
    else if mti == 0 then AsDeliver(s, left)
    else if mti == 2 then AsReport(s, left)
    else Bad
  }

  function AsSubmit(s: seq<byte>, left: nat): Parsed
    requires 1 <= left <= |s|
  {
    if left < 4 || left < 8 + NumberBytes(s[2] as int) then Bad
    else
      match AsciiAddress(s[2..])
      case Err => Bad
      case Ok(addr) => AfterAddress(s, NumberBytes(s[2] as int), left, addr)
  }

  function AsDeliver(s: seq<byte>, left: nat): Parsed
    requires 1 <= left <= |s|
  {
    if left < 3 || left < 13 + NumberBytes(s[1] as int) then Bad
    else
      match AsciiAddress(s[1..])
      case Err => Bad
      case Ok(addr) => Delivered(s[0] & 0x40 != 0, s[3 + NumberBytes(s[1] as int)..],
                                 left - (3 + NumberBytes(s[1] as int)), addr)
  }

  // the return call message, or a message waiting group with the kind of voice mail
  predicate Voicemail(pid: byte, dcs: byte) {
    pid == 0x5f || (dcs & 0xc0 == 0xc0 && dcs & 0x30 != 0x30 && dcs & 3 == 0)
  }

  // a delivered message from its protocol identifier on
  function Delivered(hasHeader: bool, t: seq<byte>, left: int, addr: Addr): Parsed
    requires 10 <= left <= |t|
  {
    match Coding(t[1])
    case Err => Bad
    case Ok(coding) =>
      match UserData(addr, hasHeader, coding, t[9..], left - 9)
      case Msg(m) => Delivery(m, t[2..9], Voicemail(t[0], t[1]))
      case _ => Bad
  }

  // the last octet counts as the status
  function AsReport(s: seq<byte>, left: nat): Parsed
    requires 1 <= left <= |s|
  {
    if left < 3 || left < 13 + NumberBytes(s[2] as int) then Bad
    else
      match AsciiAddress(s[2..])
      case Err => Bad
      case Ok(addr) =>
        var k := 4 + NumberBytes(s[2] as int);
        Report(addr, s[0] & 0x40 != 0, s[1], s[left - 1], s[k..k + 7])
  }

  // the part after the address, which takes i octets for its digits
  function AfterAddress(s: seq<byte>, i: nat, left: nat, addr: Addr): Parsed
    requires 8 + i <= left <= |s|
  {
    match Coding(s[4 + i + 1])
    case Err => Bad
    case Ok(coding) =>
      var skip := 4 + i + if (s[0] >> 3) & 3 != 0 then 3 else 2;
      UserData(addr, s[0] & 0x40 != 0, coding, s[skip..], left - skip)
  }

  // the length octet and the user data
  function UserData(addr: Addr, hasHeader: bool, coding: byte, u: seq<byte>, left: int): (r: Parsed)
    requires 0 < left <= |u|
    ensures r == Bad || r.Msg?
  {
    var n := DataBytes(coding, u[0]);
    if left < 1 + n || n > GSMD_SMS_DATA_MAXLEN then Bad
    else Msg(Message(addr, hasHeader, coding, u[0], u[1..1 + n]))
  }

  // the part after the address
  method ParseBody(s: seq<byte>, i: nat, left: nat, addr: Addr) returns (r: Parsed)
    requires 8 + i <= left <= |s|
    ensures r == AfterAddress(s, i, left, addr)
  {
    var coding := Coding(s[4 + i + 1]);
    if coding == Err { return Bad; }
    var vpf := (s[0] >> 3) & 3;
    var skip := 4 + i + if vpf != 0 then 3 else 2;
    r := UserData(addr, s[0] & 0x40 != 0, coding.value, s[skip..], left - skip);
  }

  method ParseSubmit(s: seq<byte>, left: nat) returns (r: Parsed)
    requires 1 <= left <= |s|
    ensures r == AsSubmit(s, left)
  {
    if left < 4 { return Bad; }
    var i := NumberBytes(s[2] as int);
    if left < 8 + i { return Bad; }
    var addr := ReadAddress(s[2..]);
    if addr == Err { return Bad; }
    r := ParseBody(s, i, left, addr.value);
  }

  method ParseDeliver(s: seq<byte>, left: nat) returns (r: Parsed)
    requires 1 <= left <= |s|
    ensures r == AsDeliver(s, left)
  {
    if left < 3 { return Bad; }
    var i := NumberBytes(s[1] as int);
    if left < 13 + i { return Bad; }
    var addr := ReadAddress(s[1..]);
    if addr == Err { return Bad; }
    r := ParseDelivered(s[0] & 0x40 != 0, s[3 + i..], left - (3 + i), addr.value);
  }

  method ParseDelivered(hasHeader: bool, t: seq<byte>, left: nat, addr: Addr) returns (r: Parsed)
    requires 10 <= left <= |t|
    ensures r == Delivered(hasHeader, t, left, addr)
  {
    var voicemail := t[0] == 0x5f;
    if t[1] & 0xc0 == 0xc0 && t[1] & 0x30 != 0x30 && t[1] & 3 == 0 { voicemail := true; }
    var coding := Coding(t[1]);
    if coding == Err { return Bad; }
    var u := UserData(addr, hasHeader, coding.value, t[9..], left - 9);
    if u == Bad { return Bad; }
    r := Delivery(u.m, t[2..9], voicemail);
  }

  method ParseReport(s: seq<byte>, left: nat) returns (r: Parsed)
    requires 1 <= left <= |s|
    ensures r == AsReport(s, left)
  {
    if left < 3 { return Bad; }
    var i := NumberBytes(s[2] as int);
    if left < 13 + i { return Bad; }
    var addr := ReadAddress(s[2..]);
    if addr == Err { return Bad; }
    r := Report(addr.value, s[0] & 0x40 != 0, s[1], s[left - 1], s[4 + i..11 + i]);
  }

  // sms_pdu_to_msg
  method ParsePdu(src: seq<byte>, pdulen: int, len: nat) returns (r: Parsed)
    requires len <= |src|
    ensures r == PduToMsg(src, pdulen, len)
  {
    if len < 1 || len < 1 + src[0] as int + pdulen || pdulen < 1 { return Bad; }
    var left := len - (1 + src[0] as int);
    var s := src[1 + src[0] as int..];
    match s[0] & 3 {
      case 0 => r := ParseDeliver(s, left);
      case 1 => r := ParseSubmit(s, left);
      case 2 => r := ParseReport(s, left);
      case _ => r := Bad;
    }
  }

  // the first octet says SMS-SUBMIT, no validity period, and whether there is a header
  predicate SaysSubmit(b: byte, hasHeader: bool) {
    b & 3 == 1 && (b & 0x40 != 0 <==> hasHeader) && (b >> 3) & 3 == 0
  }

  lemma FlagBits(askDs: bool, hasHeader: bool)
    ensures SaysSubmit(Flags(askDs, hasHeader), hasHeader)
  {
  }

  lemma CodingBack(c: byte)
    requires c == ALPHABET_DEFAULT || c == ALPHABET_8BIT
    ensures Coding(c) == Ok(c)
  {
  }

  predicate Sendable(s: Submit) {
    && |s.addr.number| <= GSMD_ADDR_MAXLEN && Digits(s.addr.number)
    && s.addr.toa & TON_MASK != TON_ALPHANUMERIC
    && (s.coding == ALPHABET_DEFAULT || s.coding == ALPHABET_8BIT)
    && 1 <= DataBytes(s.coding, s.length) <= GSMD_SMS_DATA_MAXLEN
    && DataBytes(s.coding, s.length) <= |s.data|
  }

  // e has the parts of an encoded message that follow the service centre and the flags
  predicate Laid(s: Submit, e: seq<byte>)
    requires |s.addr.number| <= GSMD_ADDR_MAXLEN && DataBytes(s.coding, s.length) <= |s.data|
  {
    var i := NumberBytes(|s.addr.number|);
    var n := DataBytes(s.coding, s.length);
    && |e| >= 7 + i + n
    && e[2] as int == |s.addr.number| && e[3] == s.addr.toa
    && e[4..4 + i] == EncodedDigits(s.addr.number)
    && e[5 + i] == s.coding && e[6 + i] == s.length && e[7 + i..7 + i + n] == s.data[..n]
  }

  lemma HeaderParts(s: Submit)
    requires |s.addr.number| <= GSMD_ADDR_MAXLEN
    ensures var f := Header(s)[..5];
      && Header(s) == f + EncodedDigits(s.addr.number) + [0x00, s.coding, s.length]
      && f[0] == 0 && f[1] == Flags(s.askDs, s.hasHeader) && f[3] == ByteOf(|s.addr.number|) && f[4] == s.addr.toa
  {
  }

  lemma Layout(s: Submit, rest: seq<byte>)
    requires |s.addr.number| <= GSMD_ADDR_MAXLEN && DataBytes(s.coding, s.length) <= |s.data|
    ensures |Encoded(s)| == 8 + NumberBytes(|s.addr.number|) + DataBytes(s.coding, s.length)
    ensures var e := (Encoded(s) + rest)[1..]; Encoded(s)[0] == 0 && Laid(s, e) && SaysSubmit(e[0], s.hasHeader)
  {
    var digits := EncodedDigits(s.addr.number);
    var x := s.data[..DataBytes(s.coding, s.length)];
    var front := Header(s)[..5];
    var mid := [0x00, s.coding, s.length];
    HeaderParts(s);
    assert Encoded(s) == front + digits + mid + x;
    FlagBits(s.askDs, s.hasHeader);
    ByteBack(|s.addr.number|);
    Parts(front, digits, mid, x, rest);
  }

  lemma Parts(front: seq<byte>, digits: seq<byte>, mid: seq<byte>, x: seq<byte>, rest: seq<byte>)
    requires |front| == 5 && |mid| == 3
    ensures var e := (front + digits + mid + x + rest)[1..]; var i := |digits|;
      && |e| == 7 + i + |x| + |rest| && e[0] == front[1] && e[2] == front[3] && e[3] == front[4]
      && e[4..4 + i] == digits && e[5 + i] == mid[1] && e[6 + i] == mid[2] && e[7 + i..7 + i + |x|] == x
  {
    var s := front + digits + mid + x + rest;
    var e := s[1..];
    var i := |digits|;
    assert s == front + (digits + (mid + (x + rest)));
    assert s[5..] == digits + (mid + (x + rest)) && s[5 + i..] == mid + (x + rest) && s[8 + i..] == x + rest;
    assert e[4..] == s[5..] && e[4 + i..] == s[5 + i..] && e[7 + i..] == s[8 + i..];
    assert e[4..4 + i] == e[4..][..i] && e[7 + i..7 + i + |x|] == e[7 + i..][..|x|];
    assert e[5 + i] == e[4 + i..][1] && e[6 + i] == e[4 + i..][2];
  }

  lemma AddressLies(s: Submit, e: seq<byte>)
    requires Sendable(s) && Laid(s, e)
    ensures var a := e[2..]; var i := NumberBytes(|s.addr.number|);
      && |a| > 2 + i && a[0] as int == |s.addr.number| && a[1] == s.addr.toa
      && a[2..2 + i] == EncodedDigits(s.addr.number)
  {
    var i := NumberBytes(|s.addr.number|);
    assert e[2..][2..2 + i] == e[4..4 + i];
  }

  lemma AddressBack(s: Submit, e: seq<byte>)
    requires Sendable(s) && Laid(s, e)
    ensures HasAddress(e[2..]) && AsciiAddress(e[2..]) == Ok(s.addr)
  {
    AddressLies(s, e);
    NumberBack(e[2..], s.addr.number);
  }

  lemma NumberBack(src: seq<byte>, number: seq<byte>)
    requires |number| <= GSMD_ADDR_MAXLEN && Digits(number)
    requires |src| > 2 + NumberBytes(|number|) && src[0] as int == |number| && src[1] & TON_MASK != TON_ALPHANUMERIC
    requires src[2..2 + NumberBytes(|number|)] == EncodedDigits(number)
    ensures HasAddress(src) && AsciiAddress(src) == Ok(Addr(src[1], number))
  {
    assert src[2..][..NumberBytes(|number|)] == src[2..2 + NumberBytes(|number|)];
    DigitsBack(number, src[2..]);
  }

  lemma SliceOf(e: seq<byte>, k: nat, n: nat)
    requires k + 1 + n <= |e|
    ensures e[k..][0] == e[k] && e[k..][1..1 + n] == e[k + 1..k + 1 + n]
  {
  }

  // the user data are read under the length that is found at k
  lemma UserDataBack(addr: Addr, hasHeader: bool, coding: byte, e: seq<byte>, k: nat)
    requires k < |e| && k + 1 + DataBytes(coding, e[k]) <= |e| && DataBytes(coding, e[k]) <= GSMD_SMS_DATA_MAXLEN
    ensures var n := DataBytes(coding, e[k]);
      UserData(addr, hasHeader, coding, e[k..], 1 + n)
      == Msg(Message(addr, hasHeader, coding, e[k], e[k + 1..k + 1 + n]))
  {
    SliceOf(e, k, DataBytes(coding, e[k]));
  }

  // the octets after the address, read under the facts the lemmas above give
  lemma ParseAfterAddress(e: seq<byte>, i: nat, left: nat, addr: Addr, hasHeader: bool, coding: byte)
    requires |e| >= left >= 8 + i && SaysSubmit(e[0], hasHeader)
    requires e[5 + i] == coding && (coding == ALPHABET_DEFAULT || coding == ALPHABET_8BIT)
    ensures AfterAddress(e, i, left, addr) == UserData(addr, hasHeader, coding, e[6 + i..], left - (6 + i))
  {
    CodingBack(coding);
  }

  lemma ParseAfterCentre(e: seq<byte>, i: nat, left: nat, addr: Addr)
    requires |e| >= left >= 8 + i && i == NumberBytes(e[2] as int) && e[0] & 3 == 1
    requires HasAddress(e[2..]) && AsciiAddress(e[2..]) == Ok(addr)
    ensures AfterCentre(e, left) == AfterAddress(e, i, left, addr)
  {
  }

  lemma CentreBack(s: Submit, e: seq<byte>, i: nat, left: nat)
    requires Sendable(s) && Laid(s, e) && SaysSubmit(e[0], s.hasHeader)
    requires i == NumberBytes(|s.addr.number|) && left == 7 + i + DataBytes(s.coding, s.length)
    ensures AfterCentre(e, left) == AfterAddress(e, i, left, s.addr)
  {
    AddressBack(s, e);
    ParseAfterCentre(e, i, left, s.addr);
  }

  lemma SubmitBack(s: Submit, e: seq<byte>)
    requires Sendable(s) && Laid(s, e) && SaysSubmit(e[0], s.hasHeader)
    ensures var i := NumberBytes(|s.addr.number|); var n := DataBytes(s.coding, s.length);
      AfterCentre(e, 7 + i + n) == Msg(Message(s.addr, s.hasHeader, s.coding, s.length, s.data[..n]))
  {
    var i := NumberBytes(|s.addr.number|);
    var n := DataBytes(s.coding, s.length);
    CentreBack(s, e, i, 7 + i + n);
    BodyBack(e, i, 7 + i + n, Message(s.addr, s.hasHeader, s.coding, s.length, s.data[..n]));
  }

  // the parts behind the address come back
  lemma BodyBack(e: seq<byte>, i: nat, left: nat, m: Message)
    requires 7 + i < left <= |e| && SaysSubmit(e[0], m.hasHeader)
    requires e[5 + i] == m.coding && (m.coding == ALPHABET_DEFAULT || m.coding == ALPHABET_8BIT)
    requires e[6 + i] == m.length && left == 7 + i + DataBytes(m.coding, m.length) && e[7 + i..left] == m.data
    requires DataBytes(m.coding, m.length) <= GSMD_SMS_DATA_MAXLEN
    ensures AfterAddress(e, i, left, m.addr) == Msg(m)
  {
    ParseAfterAddress(e, i, left, m.addr, m.hasHeader, m.coding);
    UserDataBack(m.addr, m.hasHeader, m.coding, e, 6 + i);
  }

  /** The parser inverts the encoder: address, header flag, alphabet, length and user data come
      back, whatever follows the message in the buffer. */
  lemma ParseEncoded(s: Submit, rest: seq<byte>)
    requires Sendable(s)
    ensures PduToMsg(Encoded(s) + rest, |Encoded(s)| - 1, |Encoded(s)|)
         == Msg(Message(s.addr, s.hasHeader, s.coding, s.length, s.data[..DataBytes(s.coding, s.length)]))
  {
    Layout(s, rest);
    SubmitBack(s, (Encoded(s) + rest)[1..]);
  }
}
