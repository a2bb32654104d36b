/** Packing of 7-bit characters into octets and back (GSM 03.38, section 6.1.2.1.1). */
module Septets {

  // an octet, a character, or any other C char; char is unsigned on the target
  type byte = bv8

  const LGSM_SMS_DATA_MAXLEN: nat := 140
  const GSMD_SMS_DATA_MAXLEN: nat := 164

  // << and >> on an octet, by amounts known at each use
  function Shl(b: byte, n: nat): byte
    requires n < 8
  {
    if n == 0 then b else if n == 1 then b << 1 else if n == 2 then b << 2 else if n == 3 then b << 3
    else if n == 4 then b << 4 else if n == 5 then b << 5 else if n == 6 then b << 6 else b << 7
  }

  function Shr(b: byte, n: nat): byte
    requires n < 8
  {
    if n == 0 then b else if n == 1 then b >> 1 else if n == 2 then b >> 2 else if n == 3 then b >> 3
    else if n == 4 then b >> 4 else if n == 5 then b >> 5 else if n == 6 then b >> 6 else b >> 7
  }

  function Bit(b: byte, n: nat): byte
    requires n < 8
  {
    Shr(b, n) & 1
  }

  // character i of a C string, 7 bits of it
  function CharAt(t: seq<byte>, i: nat): byte {
    if i < |t| then t[i] & 0x7f else 0
  }

  // an octet: what is left of one character after its r low bits, filled up from the next
  function Joined(x: byte, y: byte, r: nat): byte
    requires r < 7
  {
    Shr(x, r) | Shl(y, 7 - r)
  }

  // octet q of the packed text
  function PackedByte(t: seq<byte>, q: nat): byte {
    Joined(CharAt(t, q / 7 * 8 + q % 7), CharAt(t, q / 7 * 8 + q % 7 + 1), q % 7)
  }

  // a character from the two octets that hold its high and its low bits
  function Split(high: byte, low: byte, up: nat, down: nat): byte
    requires up < 8 && down < 8
  {
    (Shl(high, up) | Shr(low, down)) & 0x7f
  }

  // dest->length as packing_7bit_character leaves it
  function StoredLength(n: nat): nat { if n % 8 == 7 then n + 1 else n }

  // sms_data_bytelen for ALPHABET_DEFAULT
  function Octets(septets: nat): nat { (septets * 7 + 7) / 8 }

  function Pack(t: seq<byte>): seq<byte> {
    seq(Octets(StoredLength(|t|)), q requires 0 <= q => PackedByte(t, q))
  }

  // character i of packed data
  function UnpackedAt(d: seq<byte>, i: nat): byte
    requires (i * 7 + 7) / 8 < |d|
  {
    Split(d[(i * 7 + 7) / 8], d[i * 7 / 8], 7 - (i * 7 + 7) % 8, i * 7 % 8)
  }

  function Unpack(d: seq<byte>, from: nat, length: nat): seq<byte>
    requires from >= length || ((length - 1) * 7 + 7) / 8 < |d|
  {
    if from >= length then [] else seq(length - from, k requires 0 <= k < length - from => UnpackedAt(d, from + k))
  }

  // the characters before the first NUL
  function CString(s: seq<byte>): seq<byte> {
    if s == [] || s[0] == 0 then [] else [s[0]] + CString(s[1..])
  }

  predicate Text(t: seq<byte>) {
    forall c :: c in t ==> 0 < c < 128
  }

  // ---------------------------------------------------------------- the standard, bit by bit

  // bit b of a stream of octets, least significant first
  function StreamBit(d: seq<byte>, b: nat): byte
    requires b / 8 < |d|
  {
    Bit(d[b / 8], b % 8)
  }

  lemma OctetBits(x: byte, y: byte, r: nat, m: nat)
    requires r < 7 && m < 7 && x & 0x80 == 0
    ensures m >= r ==> Bit(Joined(x, y, r), m - r) == Bit(x, m)
    ensures m < r + 1 ==> Bit(Joined(x, y, r), 7 - r + m) == Bit(y, m)
  {
    if r < 2 { OctetBits1(x, y, r, m); } else if r < 4 { OctetBits3(x, y, r, m); }
    else if r < 6 { OctetBits5(x, y, r, m); } else { OctetBits6(x, y, r, m); }
  }

  lemma OctetBits1(x: byte, y: byte, r: nat, m: nat)
    requires 0 <= r <= 1 && m < 7 && x & 0x80 == 0
    ensures m >= r ==> Bit(Joined(x, y, r), m - r) == Bit(x, m)
    ensures m < r + 1 ==> Bit(Joined(x, y, r), 7 - r + m) == Bit(y, m)
  {
  }

  lemma OctetBits3(x: byte, y: byte, r: nat, m: nat)
    requires 2 <= r <= 3 && m < 7 && x & 0x80 == 0
    ensures m >= r ==> Bit(Joined(x, y, r), m - r) == Bit(x, m)
    ensures m < r + 1 ==> Bit(Joined(x, y, r), 7 - r + m) == Bit(y, m)
  {
  }

  lemma OctetBits5(x: byte, y: byte, r: nat, m: nat)
    requires 4 <= r <= 5 && m < 7 && x & 0x80 == 0
    ensures m >= r ==> Bit(Joined(x, y, r), m - r) == Bit(x, m)
    ensures m < r + 1 ==> Bit(Joined(x, y, r), 7 - r + m) == Bit(y, m)
  {
  }

  lemma OctetBits6(x: byte, y: byte, r: nat, m: nat)
    requires 6 <= r <= 6 && m < 7 && x & 0x80 == 0
    ensures m >= r ==> Bit(Joined(x, y, r), m - r) == Bit(x, m)
    ensures m < r + 1 ==> Bit(Joined(x, y, r), 7 - r + m) == Bit(y, m)
  {
  }

  // where bit m of character i lies
  lemma BitPosition(i: nat, m: nat)
    requires m < 7
    ensures var g := i / 8; var r := i % 8;
      if m >= r then (7 * i + m) / 8 == 7 * g + r && (7 * i + m) % 8 == m - r
      else (7 * i + m) / 8 == 7 * g + r - 1 && (7 * i + m) % 8 == 8 - r + m
  {
    var g := i / 8;
    var r := i % 8;
    if m >= r {
      assert 7 * i + m == 8 * (7 * g + r) + (m - r);
    } else {
      assert 7 * i + m == 8 * (7 * g + r - 1) + (8 - r + m);
    }
  }

  // the octets of a group of eight characters
  lemma GroupOctet(t: seq<byte>, g: nat, k: nat)
    requires k < 7
    ensures PackedByte(t, 7 * g + k) == Joined(CharAt(t, 8 * g + k), CharAt(t, 8 * g + k + 1), k)
  {
    assert (7 * g + k) / 7 == g && (7 * g + k) % 7 == k;
  }

  // the bits of character r of group g, in the octets that hold them
  lemma GroupBits(t: seq<byte>, g: nat, r: nat, m: nat)
    requires r < 8 && m < 7
    ensures m >= r ==> Bit(PackedByte(t, 7 * g + r), m - r) == Bit(CharAt(t, 8 * g + r), m)
    ensures m < r ==> Bit(PackedByte(t, 7 * g + r - 1), 8 - r + m) == Bit(CharAt(t, 8 * g + r), m)
  {
    var x := CharAt(t, 8 * g + r);
    if m >= r {
      GroupOctet(t, g, r);
      OctetBits(x, CharAt(t, 8 * g + r + 1), r, m);
    } else {
      GroupOctet(t, g, r - 1);
      OctetBits(CharAt(t, 8 * g + r - 1), x, r - 1, m);
    }
  }

  lemma PackedLength(n: nat, g: nat, k: nat)
    requires n == 8 * g + k && k < 8
    ensures StoredLength(n) == (if k == 7 then n + 1 else n) && Octets(StoredLength(n)) == 7 * g + k
  {
    if k == 7 {
      assert StoredLength(n) * 7 + 7 == 8 * (7 * g + 7) + 7;
    } else {
      assert n * 7 + 7 == 8 * (7 * g + k) + (7 - k);
    }
  }

  // bit m of character i, in the octet that holds it
  lemma CharBit(t: seq<byte>, i: nat, m: nat)
    requires m < 7
    ensures Bit(PackedByte(t, (7 * i + m) / 8), (7 * i + m) % 8) == Bit(CharAt(t, i), m)
  {
    BitPosition(i, m);
    GroupBits(t, i / 8, i % 8, m);
    assert i == 8 * (i / 8) + i % 8;
  }

  lemma InPacked(n: nat, i: nat, m: nat)
    requires i < n && m < 7
    ensures (7 * i + m) / 8 < Octets(StoredLength(n))
  {
  }

  /** The packing is the one of the standard: bit m of character i is bit 7i + m of the stream
      of octets. */
  lemma PackStandard(t: seq<byte>, i: nat, m: nat)
    requires i < |t| && m < 7
    ensures (7 * i + m) / 8 < |Pack(t)|
    ensures StreamBit(Pack(t), 7 * i + m) == Bit(t[i] & 0x7f, m)
  {
    InPacked(|t|, i, m);
    CharBit(t, i, m);
  }

  // ---------------------------------------------------------------- unpacking

  // character x between its neighbours w and y in a group, from the octets that hold it
  lemma SeptetBack(w: byte, x: byte, y: byte, r: nat)
    requires 1 <= r < 7 && w & 0x80 == 0 && x & 0x80 == 0
    ensures Split(Joined(x, y, r), Joined(w, x, r - 1), r, 8 - r) == x
  {
    if r < 3 { SeptetBack2(w, x, y, r); } else if r < 5 { SeptetBack4(w, x, y, r); } else { SeptetBack6(w, x, y, r); }
  }

  lemma SeptetBack2(w: byte, x: byte, y: byte, r: nat)
    requires 1 <= r < 3 && w & 0x80 == 0 && x & 0x80 == 0
    ensures Split(Joined(x, y, r), Joined(w, x, r - 1), r, 8 - r) == x
  {
  }

  lemma SeptetBack4(w: byte, x: byte, y: byte, r: nat)
    requires 3 <= r < 5 && w & 0x80 == 0 && x & 0x80 == 0
    ensures Split(Joined(x, y, r), Joined(w, x, r - 1), r, 8 - r) == x
  {
  }

  lemma SeptetBack6(w: byte, x: byte, y: byte, r: nat)
    requires 5 <= r < 7 && w & 0x80 == 0 && x & 0x80 == 0
    ensures Split(Joined(x, y, r), Joined(w, x, r - 1), r, 8 - r) == x
  {
  }

  // the first and the last character of a group; z is whatever follows the group
  lemma SeptetEdges(w: byte, x: byte, y: byte, z: byte)
    requires w & 0x80 == 0 && x & 0x80 == 0
    ensures Split(Joined(x, y, 0), Joined(x, y, 0), 0, 0) == x
    ensures Split(z, Joined(w, x, 6), 7, 1) == x
  {
  }

  // the octets and shifts that unpacking uses for character 8g + r
  lemma SeptetPosition(i: nat, g: nat, r: nat)
    requires i == 8 * g + r && r < 8
    ensures (i * 7 + 7) / 8 == 7 * g + r && 7 - (i * 7 + 7) % 8 == r
    ensures i * 7 / 8 == (if r == 0 then 7 * g else 7 * g + r - 1) && i * 7 % 8 == if r == 0 then 0 else 8 - r
  {
    assert i * 7 + 7 == 8 * (7 * g + r) + (7 - r);
    if r == 0 {
      assert i * 7 == 8 * (7 * g);
    } else {
      assert i * 7 == 8 * (7 * g + r - 1) + (8 - r);
    }
  }

  // data that start with the packed text have its octets where unpacking looks for character
  // r of group g
  lemma CharOctets(t: seq<byte>, d: seq<byte>, g: nat, r: nat)
    requires r < 8 && 8 * g + r < StoredLength(|t|)
    requires |d| > Octets(StoredLength(|t|)) && d[..|Pack(t)|] == Pack(t)
    ensures 7 * g + r < |d|
    ensures r > 0 ==> d[7 * g + r - 1] == PackedByte(t, 7 * g + r - 1)
    ensures r < 7 ==> d[7 * g + r] == PackedByte(t, 7 * g + r)
  {
    var p := Pack(t);
    PackedLength(|t|, |t| / 8, |t| % 8);
    if r > 0 { assert d[7 * g + r - 1] == p[7 * g + r - 1]; }
    if r < 7 { assert d[7 * g + r] == p[7 * g + r]; }
  }

  /** Every character comes back from the octets, whatever follows the packed text. */
  lemma UnpackPack(t: seq<byte>, d: seq<byte>, i: nat)
    requires i < StoredLength(|t|) && |d| > Octets(StoredLength(|t|)) && d[..|Pack(t)|] == Pack(t)
    ensures (i * 7 + 7) / 8 < |d| && UnpackedAt(d, i) == CharAt(t, i)
  {
    assert i == 8 * (i / 8) + i % 8;
    UnpackGroup(t, d, i / 8, i % 8);
  }

  lemma UnpackGroup(t: seq<byte>, d: seq<byte>, g: nat, r: nat)
    requires r < 8 && 8 * g + r < StoredLength(|t|)
    requires |d| > Octets(StoredLength(|t|)) && d[..|Pack(t)|] == Pack(t)
    ensures ((8 * g + r) * 7 + 7) / 8 < |d| && UnpackedAt(d, 8 * g + r) == CharAt(t, 8 * g + r)
  {
    CharOctets(t, d, g, r);
    UnpackedGroup(d, g, r);
    GroupBack(t, g, r, d[7 * g + r], if r == 0 then d[7 * g] else d[7 * g + r - 1]);
  }

  // how far the lower octet of character r of a group is shifted
  function DownBy(r: nat): (k: nat)
    requires r < 8
  {
    if r == 0 then 0 else 8 - r
  }

  // character r of group g, in the octets of the group
  lemma UnpackedGroup(d: seq<byte>, g: nat, r: nat)
    requires r < 8 && 7 * g + r < |d|
    ensures ((8 * g + r) * 7 + 7) / 8 < |d|
    ensures UnpackedAt(d, 8 * g + r)
         == Split(d[7 * g + r], if r == 0 then d[7 * g] else d[7 * g + r - 1], r, DownBy(r))
  {
    SeptetPosition(8 * g + r, g, r);
  }

  // the character from its two octets
  lemma GroupBack(t: seq<byte>, g: nat, r: nat, high: byte, low: byte)
    requires r < 8 && (r < 7 ==> high == PackedByte(t, 7 * g + r))
    requires low == if r == 0 then PackedByte(t, 7 * g) else PackedByte(t, 7 * g + r - 1)
    ensures Split(high, low, r, DownBy(r)) == CharAt(t, 8 * g + r)
  {
    GroupSeptet(t, g, r, high);
  }

  // character r of group g from the octets of the group; z is the octet after the group
  lemma GroupSeptet(t: seq<byte>, g: nat, r: nat, z: byte)
    requires r < 8
    ensures r == 0 ==> Split(PackedByte(t, 7 * g), PackedByte(t, 7 * g), 0, 0) == CharAt(t, 8 * g)
    ensures 0 < r < 7 ==>
      Split(PackedByte(t, 7 * g + r), PackedByte(t, 7 * g + r - 1), r, 8 - r) == CharAt(t, 8 * g + r)
    ensures r == 7 ==> Split(z, PackedByte(t, 7 * g + 6), 7, 1) == CharAt(t, 8 * g + 7)
  {
    if r == 0 {
      GroupOctet(t, g, 0);
      SeptetEdges(0, CharAt(t, 8 * g), CharAt(t, 8 * g + 1), 0);
    } else if r == 7 {
      GroupOctet(t, g, 6);
      SeptetEdges(CharAt(t, 8 * g + 6), CharAt(t, 8 * g + 7), 0, z);
    } else {
      InnerSeptet(t, g, r);
    }
  }

  lemma InnerSeptet(t: seq<byte>, g: nat, r: nat)
    requires 0 < r < 7
    ensures Split(PackedByte(t, 7 * g + r), PackedByte(t, 7 * g + r - 1), r, 8 - r) == CharAt(t, 8 * g + r)
  {
    GroupOctet(t, g, r - 1);
    GroupOctet(t, g, r);
    SeptetBack(CharAt(t, 8 * g + r - 1), CharAt(t, 8 * g + r), CharAt(t, 8 * g + r + 1), r);
  }

  lemma {:induction false} CStringPadded(s: seq<byte>, t: seq<byte>)
    requires Text(t) && |s| >= |t| && s[..|t|] == t && (|s| > |t| ==> s[|t|] == 0)
    ensures CString(s) == t
  {
    if t == [] {
    } else {
      assert s[0] == t[0] && t[0] in t;
      assert s[1..][..|t[1..]|] == t[1..];
      assert Text(t[1..]) by { assert forall c :: c in t[1..] ==> c in t; }
      CStringPadded(s[1..], t[1..]);
    }
  }

  /** Unpacking inverts packing for every 7-bit text without NUL. */
  lemma RoundTrip(t: seq<byte>, d: seq<byte>)
    requires Text(t) && |d| > Octets(StoredLength(|t|)) && d[..|Pack(t)|] == Pack(t)
    ensures CString(Unpack(d, 0, StoredLength(|t|))) == t
  {
    var n := StoredLength(|t|);
    var u := Unpack(d, 0, n);
    forall i | 0 <= i < n ensures u[i] == CharAt(t, i) { UnpackPack(t, d, i); }
    forall i | 0 <= i < |t| ensures u[i] == t[i] {
      assert t[i] in t;
      SevenBit(t[i]);
    }
    CStringPadded(u, t);
  }

  lemma SevenBit(c: byte)
    requires c < 128
    ensures c & 0x7f == c
  {
  }

  // ---------------------------------------------------------------- the loops

  // struct lgsm_sms, as far as packing fills it
  class OutgoingSms {
    var data: array<byte>
    var length: nat

    constructor ()
      ensures fresh(data) && data.Length == LGSM_SMS_DATA_MAXLEN + 1
    {
      data := new byte[LGSM_SMS_DATA_MAXLEN + 1];
      length := 0;
    }

    // one octet in the loop of packing_7bit_character
    method PutOctet(src: seq<byte>, i: nat, j: nat, shift: nat)
      requires i < |src| && j < data.Length && shift < 7
      modifies data
      ensures data[j] == Joined(CharAt(src, i), CharAt(src, i + 1), shift)
      ensures forall q :: 0 <= q < data.Length && q != j ==> data[q] == old(data[q])
    {
      var ch1 := src[i] & 0x7f;
      ch1 := Shr(ch1, shift);
      var ch2 := CharAt(src, i + 1);
      ch2 := Shl(ch2, 7 - shift);
      ch1 := ch1 | ch2;
      data[j] := ch1;
    }

    // packing_7bit_character, for texts whose octets fit the buffer
    method Packing(src: seq<byte>) returns (octets: nat)
      requires data.Length == LGSM_SMS_DATA_MAXLEN + 1 && |src| <= 161
      modifies this`length, data
      ensures length == StoredLength(|src|) && octets == Octets(length)
      ensures data[..octets] == Pack(src)
    {
      var i, j, shift := 0, 0, 0;
      ghost var g: nat := 0;
      while i < |src|
        invariant i == 8 * g + shift && j == 7 * g + shift && shift < 7
        invariant (i <= |src| || (i == |src| + 1 && shift == 0)) && j <= data.Length
        invariant forall q :: 0 <= q < j ==> data[q] == PackedByte(src, q)
        decreases |src| + 1 - i
      {
        if j > data.Length { break; }
        GroupOctet(src, g, shift);
        PutOctet(src, i, j, shift);
        j := j + 1;
        shift := shift + 1;
        if shift == 7 {
          shift := 0;
          i := i + 1;
          g := g + 1;
        }
        i := i + 1;
      }
      PackedUp(|src|, g, shift, i);
      length := i;
      octets := j;
      assert data[..octets] == Pack(src);
    }
  }

  // where the loop ends
  lemma PackedUp(n: nat, g: nat, shift: nat, i: nat)
    requires i == 8 * g + shift && shift < 7 && (i == n || (i == n + 1 && shift == 0))
    ensures StoredLength(n) == i && Octets(i) == 7 * g + shift
  {
    if i == n { PackedLength(n, g, shift); } else { PackedLength(n, g - 1, 7); }
  }

  /** The octets of a text fit the buffer exactly up to 161 characters; a longer text is stored
      past its end. */
  lemma PackingFits(n: nat)
    ensures Octets(StoredLength(n)) <= LGSM_SMS_DATA_MAXLEN + 1 <==> n <= 161
  {
  }

  lemma UnpackMore(d: seq<byte>, from: nat, i: nat)
    requires from <= i && (i * 7 + 7) / 8 < |d|
    ensures Unpack(d, from, i + 1) == Unpack(d, from, i) + [UnpackedAt(d, i)]
  {
  }

  // the loop of unpacking_7bit_character, from character `from` on
  method UnpackFrom(data: seq<byte>, from: nat, length: nat) returns (dest: seq<byte>, i: nat)
    requires length <= from || ((length - 1) * 7 + 7) / 8 < |data|
    ensures dest == Unpack(data, from, length) && i == if from < length then length else from
  {
    i := from;
    dest := [];
    while i < length
      invariant from <= i && (from <= length ==> i <= length) && (from > length ==> i == from)
      invariant dest == Unpack(data, from, i)
    {
      UnpackMore(data, from, i);
      dest := dest + [UnpackedAt(data, i)];
      i := i + 1;
    }
  }

  // unpacking_7bit_character on received data, whose first octet is the header length if a
  // header is present
  method Unpacking(data: seq<byte>, hasHeader: bool, length: nat) returns (dest: seq<byte>, i: nat)
    requires |data| == GSMD_SMS_DATA_MAXLEN + 1 && (length == 0 || ((length - 1) * 7 + 7) / 8 < |data|)
    ensures var from := if hasHeader then FirstSeptet(data[0] as int) else 0;
      dest == Unpack(data, from, length) && i == if from < length then length else from
  {
    var from := 0;
    if hasHeader { from := from + (data[0] as int * 8 + 14) / 7; }
    dest, i := UnpackFrom(data, from, length);
  }

  // the first septet after a user data header of udhl octets and its length octet
  function FirstSeptet(udhl: nat): nat { (udhl * 8 + 14) / 7 }

  /** It is the first septet that starts at or after the end of the header (GSM 03.40,
      section 9.2.3.24). */
  lemma FirstSeptetExact(udhl: nat, i: nat)
    ensures 7 * i >= 8 * (udhl + 1) <==> i >= FirstSeptet(udhl)
  {
  }
}
