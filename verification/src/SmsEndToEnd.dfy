/** A short message from the sender's text and number to the reader's text and number: through
    the client library, the daemon's encoder, the hexadecimal listing, and back. */
module SmsEndToEnd {
  import opened Septets
  import opened SmsPdu

  const PLUS: byte := 0x2b
  // numbering plan ISDN with the reserved bit, and type of number international or unknown
  const TOA_INTERNATIONAL: byte := 0x91
  const TOA_UNKNOWN: byte := 0x81

  // the number without its leading plus, if that is to be skipped
  function Bare(number: seq<byte>, skipPlus: bool): seq<byte> {
    if number != [] && number[0] == PLUS && skipPlus then number[1..] else number
  }

  function Toa(number: seq<byte>): byte {
    if number != [] && number[0] == PLUS then TOA_INTERNATIONAL else TOA_UNKNOWN
  }

  // what a client may pass as a number
  predicate PhoneNumber(number: seq<byte>) {
    Digits(Bare(number, true))
  }

  // lgsm_number2addr
  method NumberToAddr(src: seq<byte>, skipPlus: bool) returns (r: Result<Addr>)
    ensures r.Ok? <==> |src| <= GSMD_ADDR_MAXLEN && Digits(Bare(src, skipPlus))
    ensures r.Ok? ==> r.value == Addr(Toa(src), Bare(src, skipPlus))
  {
    if |src| + 1 > GSMD_ADDR_MAXLEN + 1 { return Err; }
    var toa, number;
    if src != [] && src[0] == PLUS {
      toa := TOA_INTERNATIONAL;
      number := if skipPlus then src[1..] else src;
    } else {
      toa := TOA_UNKNOWN;
      number := src;
    }
    var ch := 0;
    while ch < |number|
      invariant 0 <= ch <= |number| && Digits(number[..ch])
    {
      if number[ch] < 0x30 || number[ch] > 0x39 {
        assert number[ch] in number;
        return Err;
      }
      assert number[..ch + 1] == number[..ch] + [number[ch]];
      ch := ch + 1;
    }
    assert number[..ch] == number;
    r := Ok(Addr(toa, number));
  }

  // lgsm_sms_send, up to the message it hands to the daemon; `was` is the payload's memory
  method SmsSend(sms: OutgoingSms, number: seq<byte>, askDs: bool, was: seq<byte>) returns (r: Result<Submit>)
    requires sms.data.Length == LGSM_SMS_DATA_MAXLEN + 1 && sms.length < 256 && |was| == GSMD_SMS_DATA_MAXLEN + 1
    ensures r.Ok? <==> |number| <= GSMD_ADDR_MAXLEN && PhoneNumber(number)
    ensures r.Ok? ==> r.value.addr == Addr(Toa(number), Bare(number, true))
    ensures r.Ok? ==> r.value.askDs == askDs && !r.value.hasHeader && r.value.coding == ALPHABET_DEFAULT
    ensures r.Ok? ==> r.value.length as int == sms.length && |r.value.data| == |was|
    ensures r.Ok? ==> r.value.data[..LGSM_SMS_DATA_MAXLEN] == sms.data[..LGSM_SMS_DATA_MAXLEN]
  {
    var addr := NumberToAddr(number, true);
    if addr == Err { return Err; }
    ByteBack(sms.length);
    r := Ok(Submit(addr.value, askDs, false, ALPHABET_DEFAULT, ByteOf(sms.length),
                   sms.data[..LGSM_SMS_DATA_MAXLEN] + was[LGSM_SMS_DATA_MAXLEN..]));
  }

  // sms_list_cb and sms_read_cb after the header line: the PDU starts at cr
  method ReadMessage(resp: string, cr: nat, len: int) returns (r: Parsed)
    ensures len > 164 ==> r == Bad
    ensures len <= 164 ==> var pdu := ReadHex(resp, cr, SMS_MAX_PDU_SIZE);
      r == if pdu.Ok? then PduToMsg(pdu.value, len, |pdu.value|) else Bad
  {
    if len > 164 { return Bad; }
    var pdu := ReadPdu(resp, cr);
    if pdu == Err { return Bad; }
    r := ParsePdu(pdu.value, len, |pdu.value|);
  }

  // a message without user data is one octet shorter than the parser asks for
  lemma TooShort(e: seq<byte>, left: nat)
    requires 1 <= left <= |e| && |e| >= 3 && e[0] & 3 == 1 && left < 8 + NumberBytes(e[2] as int)
    ensures AfterCentre(e, left) == Bad
  {
  }

  lemma LaidEmpty(s: Submit, e: seq<byte>)
    requires |s.addr.number| <= GSMD_ADDR_MAXLEN && DataBytes(s.coding, s.length) == 0
    requires Laid(s, e) && e[0] & 3 == 1
    ensures AfterCentre(e, 7 + NumberBytes(|s.addr.number|)) == Bad
  {
    TooShort(e, 7 + NumberBytes(|s.addr.number|));
  }

  lemma EmptyRefused(s: Submit)
    requires |s.addr.number| <= GSMD_ADDR_MAXLEN && DataBytes(s.coding, s.length) == 0
    ensures PduToMsg(Encoded(s), |Encoded(s)| - 1, |Encoded(s)|) == Bad
  {
    assert Encoded(s) + [] == Encoded(s);
    Layout(s, []);
    LaidEmpty(s, Encoded(s)[1..]);
  }

  // the septets that a text of up to 160 characters is stored as, and their octets
  lemma Fits(n: nat)
    requires n <= 160
    ensures StoredLength(n) <= 160 && Octets(StoredLength(n)) <= LGSM_SMS_DATA_MAXLEN
    ensures n > 0 ==> Octets(StoredLength(n)) > 0
  {
  }

  // sprintf("%i") on a length
  function Decimal(n: nat): string {
    (if n < 10 then "" else Decimal(n / 10)) + ['0' + (n % 10) as char]
  }

  lemma DecimalLength(n: nat)
    requires n < 1000
    ensures |Decimal(n)| <= 3
  {
    assert |Decimal(n / 100)| == 1;
    assert n / 10 >= 10 ==> |Decimal(n / 10)| == |Decimal(n / 10 / 10)| + 1 && n / 10 / 10 == n / 100;
  }

  // the size of the buffer in usock_rcv_sms
  const COMMAND_BUF_SIZE: nat := 1024

  const CTRL_Z: char := 26 as char

  // the command that sends a message, without its terminator
  function SendCommand(s: Submit): string
    requires Sendable(s)
  {
    "AT+CMGS=" + Decimal(|Encoded(s)| - 1) + "\n" + HexAll(Encoded(s)) + [CTRL_Z]
  }

  /** The daemon's buffer holds the whole command with its terminator, for every message that can
      be sent. */
  lemma CommandFits(s: Submit)
    requires Sendable(s)
    ensures |SendCommand(s)| + 1 <= COMMAND_BUF_SIZE
  {
    Layout(s, []);
    HexLength(Encoded(s));
    DecimalLength(|Encoded(s)| - 1);
  }

  // the SEND case of usock_rcv_sms: the length comes from a first, silent pass over the message
  method BuildCommand(gss: Submit) returns (buf: string)
    requires Sendable(gss)
    ensures buf == SendCommand(gss) && |buf| + 1 <= COMMAND_BUF_SIZE
  {
    var none, count := MakeSmsSubmit(false, gss);
    var hex, again := MakeSmsSubmit(true, gss);
    Layout(gss, []);
    CommandFits(gss);
    buf := "AT+CMGS=" + Decimal(count - 1) + "\n" + hex + [CTRL_Z];
  }

  lemma {:induction false} HexLength(bs: seq<byte>)
    ensures |HexAll(bs)| == 2 * |bs|
  {
    if bs != [] { HexLength(bs[1..]); }
  }

  // what the reader makes of the printed message
  lemma ListingBack(s: Submit, before: string, after: string)
    requires |s.addr.number| <= GSMD_ADDR_MAXLEN && (after == "" || after[0] < '0')
    requires DataBytes(s.coding, s.length) <= LGSM_SMS_DATA_MAXLEN && DataBytes(s.coding, s.length) <= |s.data|
    ensures |Encoded(s)| - 1 <= 164
    ensures ReadHex(before + HexAll(Encoded(s)) + after, |before|, SMS_MAX_PDU_SIZE) == Ok(Encoded(s))
  {
    Layout(s, []);
    ReadHexAll(before, Encoded(s), after, SMS_MAX_PDU_SIZE);
  }

  // s carries the text and the number
  predicate Carries(s: Submit, text: seq<byte>, number: seq<byte>) {
    && s.addr == Addr(Toa(number), Bare(number, true)) && !s.hasHeader && s.coding == ALPHABET_DEFAULT
    && s.length as int == StoredLength(|text|) && |s.data| == GSMD_SMS_DATA_MAXLEN + 1
    && Octets(s.length as int) <= LGSM_SMS_DATA_MAXLEN && s.data[..Octets(s.length as int)] == Pack(text)
  }

  // the sender's side: the hexadecimal form, and the octets in it
  method SendText(text: seq<byte>, number: seq<byte>, askDs: bool, was: seq<byte>)
    returns (hex: string, count: nat, ghost s: Submit)
    requires |text| <= 160 && |number| <= GSMD_ADDR_MAXLEN && PhoneNumber(number) && |was| == GSMD_SMS_DATA_MAXLEN + 1
    ensures Carries(s, text, number) && hex == HexAll(Encoded(s)) && count == |Encoded(s)|
  {
    var sms := new OutgoingSms();
    var n := sms.Packing(text);
    Fits(|text|);
    var submit := SmsSend(sms, number, askDs, was);
    s := submit.value;
    assert s.data[..n] == s.data[..LGSM_SMS_DATA_MAXLEN][..n];
    hex, count := MakeSmsSubmit(true, submit.value);
  }

  lemma CarriedBack(s: Submit, text: seq<byte>, number: seq<byte>)
    requires Carries(s, text, number) && |number| <= GSMD_ADDR_MAXLEN && PhoneNumber(number) && |text| <= 160
    ensures PduToMsg(Encoded(s), |Encoded(s)| - 1, |Encoded(s)|)
         == if text == [] then Bad else Msg(Message(s.addr, false, ALPHABET_DEFAULT, s.length, Pack(text)))
  {
    Fits(|text|);
    assert Encoded(s) + [] == Encoded(s);
    if text == [] {
      EmptyRefused(s);
    } else {
      assert s.addr.toa & TON_MASK != TON_ALPHANUMERIC;
      ParseEncoded(s, []);
    }
  }

  // the reader's side: the payload's memory holds the user data, a NUL, and what was there before
  method ReadText(m: Message, there: seq<byte>, ghost text: seq<byte>) returns (back: seq<byte>)
    requires Text(text) && |text| <= 160 && |there| == GSMD_SMS_DATA_MAXLEN + 1
    requires !m.hasHeader && m.length as int == StoredLength(|text|) && m.data == Pack(text)
    ensures CString(back) == text
  {
    Fits(|text|);
    var data := m.data + [0] + there[|m.data| + 1..];
    RoundTrip(text, data);
    var end;
    back, end := Unpacking(data, m.hasHeader, m.length as int);
  }

  /** Text, number and type of address arrive for every non-empty 7-bit text of up to 160
      characters and every number that a message can carry, whatever the memory of either
      payload held before and whatever surrounds the listing. An empty text is refused. */
  method SendAndRead(text: seq<byte>, number: seq<byte>, askDs: bool, was: seq<byte>, there: seq<byte>,
                     before: string, after: string)
    returns (m: Parsed, back: seq<byte>)
    requires Text(text) && |text| <= 160
    requires |number| <= GSMD_ADDR_MAXLEN && PhoneNumber(number)
    requires |was| == |there| == GSMD_SMS_DATA_MAXLEN + 1 && (after == "" || after[0] < '0')
    ensures m.Msg? <==> text != []
    ensures m.Msg? ==> m.m.addr == Addr(Toa(number), Bare(number, true)) && CString(back) == text
  {
    var hex, count, s := SendText(text, number, askDs, was);
    ListingBack(s, before, after);
    m := ReadMessage(before + hex + after, |before|, count - 1);
    CarriedBack(s, text, number);
    if m == Bad { return m, []; }
    back := ReadText(m.m, there, text);
  }
}
