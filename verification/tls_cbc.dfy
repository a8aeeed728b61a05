/** The record logic of TLS 1.2 CBC cipher suites (`TLS_CBC_HMAC_AEAD_Mode`).

    The block cipher in CBC mode and the HMAC are foreign code here: they
    enter as function parameters. What is modelled is everything the mode
    itself computes around them: the padding check of section 6.2.3.2 of
    RFC 5246, the padding writer, the record length arithmetic, the 13-byte
    additional data and its Encrypt-then-MAC length rewrite (section 3 of
    RFC 7366), and the MAC-then-encrypt acceptance decision. The
    constant-time masks of the C++ code become plain booleans. */
module TlsCbc {
  import opened Wrappers
  import opened Words

  type Byte = b: nat | b < 256
  type Uint16 = x: nat | x < 0x1_0000

  /** `static_cast<uint16_t>` of a non-negative value. */
  function Cast16(x: nat): Uint16
  {
    x % 0x1_0000
  }

  /** The parameters a mode object fixes at construction. */
  datatype Mode = Mode(blockSize: nat, ivSize: nat, tagSize: nat, encryptThenMac: bool)

  /** The constructor sets the IV size to the block size; TLS 1.2 CBC suites
      use 8- or 16-byte blocks and HMAC tags of at most 48 bytes. */
  predicate ValidMode(m: Mode)
  {
    0 < m.blockSize <= 256 && m.ivSize == m.blockSize && m.tagSize <= 64
  }

  // ---------------------------------------------------------------------
  // Padding

  /** What the padding check is meant to compute: with p the last byte, the
      padding length p + 1 when the last p + 1 bytes all equal p, else 0.
      Records that are empty or longer than 0xFFFF bytes have no padding. */
  function PaddingLength(record: seq<Byte>): (r: nat)
    ensures r == 0 || 1 <= r <= 256
    ensures r <= |record|
  {
    if |record| == 0 || |record| > 0xFFFF then 0
    else
      var pad := record[|record| - 1] as int + 1;
      if pad <= |record| && forall j :: |record| - pad <= j < |record| ==> record[j] as int + 1 == pad
      then pad else 0
  }

  /** `check_tls_cbc_padding`: scans the last min(256, n) bytes without
      branching on secret data and returns the padding length or 0. */
  method CheckTlsCbcPadding(record: seq<Byte>) returns (r: nat)
    ensures r == PaddingLength(record)
  {
    var n := |record|;
    if n == 0 || n > 0xFFFF {
      return 0;
    }
    var toCheck := if 256 < n then 256 else n;
    var padByte := record[n - 1];
    var padBytes := 1 + padByte as int;
    var invalid := n < padBytes;
    var i := n - toCheck;
    while i != n
      invariant n - toCheck <= i <= n
      invariant invalid <==> (n < padBytes || exists j :: n - toCheck <= j < i && n - j <= padBytes && record[j] != padByte)
    {
      var offset := n - i;
      invalid := invalid || (offset <= padBytes && record[i] != padByte);
      i := i + 1;
    }
    if !invalid {
      assert forall j :: n - padBytes <= j < n ==> record[j] as int + 1 == padBytes by {
        forall j | n - padBytes <= j < n
          ensures record[j] as int + 1 == padBytes
        {
          assert n - toCheck <= j;
        }
      }
    } else if padBytes <= n {
      var j :| n - toCheck <= j < n && n - j <= padBytes && record[j] != padByte;
      assert !(record[j] as int + 1 == padBytes);
    }
    r := if invalid then 0 else padBytes;
  }

  /** The padding fill of `cbc_encrypt_record`: the buffer grows by
      `padLength` zero bytes, then every byte of the last block at or after
      the padding start becomes `padLength - 1` (as a byte). */
  function PadFill(buffer: seq<Byte>, padLength: nat, blockSize: nat): (r: Result<seq<Byte>>)
    requires blockSize <= |buffer| + padLength
    ensures r.Success? <==> padLength <= 16
    ensures r.Failure? ==> r.error == AssertionFailure
    ensures r.Success? ==> |r.value| == |buffer| + padLength && r.value[..|buffer|] == buffer
    ensures r.Success? && padLength <= blockSize ==>
      forall i :: |buffer| <= i < |r.value| ==> r.value[i] as int + 1 == padLength
  {
    if padLength > 16 then Failure(AssertionFailure)
    else
      var n := |buffer| + padLength;
      var padVal: Byte := (padLength + 255) % 256;
      var grown := buffer + seq(padLength, _ => 0);
      Success(seq(n, i requires 0 <= i < n =>
        if i >= n - blockSize && i >= n - padLength then padVal else grown[i]))
  }

  /** Round trip of the padding: the check reads back exactly the length the
      writer used, whatever the buffer held before. */
  lemma {:induction false} PadFillThenCheck(buffer: seq<Byte>, padLength: nat, blockSize: nat)
    requires 1 <= padLength <= blockSize <= |buffer| + padLength
    requires padLength <= 16 && |buffer| + padLength <= 0xFFFF
    ensures PadFill(buffer, padLength, blockSize).Success?
    ensures PaddingLength(PadFill(buffer, padLength, blockSize).value) == padLength
  {
    var r := PadFill(buffer, padLength, blockSize).value;
    assert r[|r| - 1] as int + 1 == padLength;
    assert forall j :: |r| - padLength <= j < |r| ==> r[j] as int + 1 == padLength;
  }

  // ---------------------------------------------------------------------
  // Length arithmetic

  /** `round_up(n, align)` (rounding.h is not part of this model; it rejects
      a zero alignment, which no caller here passes). */
  function RoundUp(n: nat, align: nat): (r: nat)
    requires align > 0
    ensures r % align == 0
    ensures n <= r < n + align
  {
    if n % align != 0 then
      ModAddMultiple(n / align + 1, align, 0);
      assert n + (align - n % align) == (n / align + 1) * align;
      n + (align - n % align)
    else n
  }

  /** The smallest multiple of `align` not below n is `RoundUp(n, align)`. */
  lemma RoundUpLeast(n: nat, align: nat, c: nat)
    requires align > 0 && c % align == 0 && n <= c
    ensures RoundUp(n, align) <= c
  {
    var r := RoundUp(n, align);
    if c < r {
      DivModUnique(c, align, c / align, 0);
      DivModUnique(r, align, r / align, 0);
      assert c / align < r / align;
      MulLeMono(c / align + 1, r / align, align);
    }
  }

  /** Adding one alignment unit commutes with rounding up. */
  lemma RoundUpShift(n: nat, align: nat)
    requires align > 0
    ensures RoundUp(align + n, align) == align + RoundUp(n, align)
  {
    ModAddMultiple(1, align, n);
  }

  /** `output_length` of the encryption side. */
  function OutputLength(mode: Mode, inputLength: nat): (r: nat)
    requires ValidMode(mode)
    ensures var tag := if mode.encryptThenMac then mode.tagSize else 0;
            var covered := inputLength + 1 + (if mode.encryptThenMac then 0 else mode.tagSize);
            tag <= r && (r - tag) % mode.blockSize == 0 && covered <= r - tag < covered + mode.blockSize
  {
    RoundUp(inputLength + 1 + (if mode.encryptThenMac then 0 else mode.tagSize), mode.blockSize)
      + (if mode.encryptThenMac then mode.tagSize else 0)
  }

  /** The sizes `finish_msg` derives for a message of `msgSize` bytes. */
  datatype Layout = Layout(padLength: nat, encSize: nat)

  function EncryptLayout(mode: Mode, msgSize: nat): (l: Layout)
    requires ValidMode(mode)
    ensures 1 <= l.padLength <= mode.blockSize
    ensures l.encSize % mode.blockSize == 0 && mode.blockSize <= l.encSize
    ensures l.encSize == msgSize + (if mode.encryptThenMac then 0 else mode.tagSize) + l.padLength
    ensures l.encSize + (if mode.encryptThenMac then mode.tagSize else 0) == OutputLength(mode, msgSize)
  {
    var inputSize := msgSize + 1 + (if mode.encryptThenMac then 0 else mode.tagSize);
    var encSize := RoundUp(inputSize, mode.blockSize);
    assert mode.blockSize <= encSize by {
      if encSize < mode.blockSize {
        DivModUnique(encSize, mode.blockSize, 0, encSize);
      }
    }
    var padVal: Byte := (encSize - inputSize) % 256;
    Layout(padVal + 1, encSize)
  }

  // ---------------------------------------------------------------------
  // Additional data

  /** The two big-endian bytes of a 16-bit length. */
  function MakeUint16(hi: Byte, lo: Byte): Uint16
  {
    hi * 256 + lo
  }

  /** The 13-byte additional data with bytes 11 and 12 replaced by `len`. */
  function WithLength(ad: seq<Byte>, len: Uint16): (r: seq<Byte>)
    requires |ad| == 13
    ensures |r| == 13 && r[..11] == ad[..11]
    ensures MakeUint16(r[11], r[12]) == len
  {
    ad[..11] + [len / 256, len % 256]
  }

  /** Rewriting the length field with the value it already holds is a no-op. */
  lemma WithOwnLength(ad: seq<Byte>)
    requires |ad| == 13
    ensures WithLength(ad, MakeUint16(ad[11], ad[12])) == ad
  {
    var r := WithLength(ad, MakeUint16(ad[11], ad[12]));
    DivModUnique(MakeUint16(ad[11], ad[12]), 256, ad[11], ad[12]);
    assert r[11] == ad[11] && r[12] == ad[12];
  }

  /** `assoc_data_with_len`: asserts the stored data is 13 bytes long. */
  function AssocDataWithLen(ad: seq<Byte>, len: Uint16): (r: Result<seq<Byte>>)
    ensures r.Success? <==> |ad| == 13
    ensures r.Failure? ==> r.error == AssertionFailure
    ensures r.Success? ==> |r.value| == 13 && r.value[..11] == ad[..11]
    ensures r.Success? ==> MakeUint16(r.value[11], r.value[12]) == len
  {
    if |ad| != 13 then Failure(AssertionFailure) else Success(WithLength(ad, len))
  }

  /** `set_associated_data_n` of the base mode: only index 0, only 13 bytes. */
  function SetAssociatedData(idx: nat, ad: seq<Byte>): (r: Result<seq<Byte>>)
    ensures r.Success? <==> idx == 0 && |ad| == 13
    ensures r.Failure? ==> r.error == InvalidArgument
    ensures r.Success? ==> r.value == ad
  {
    if idx != 0 then Failure(InvalidArgument)
    else if |ad| != 13 then Failure(InvalidArgument)
    else Success(ad)
  }

  /** The encryption override: with Encrypt-then-MAC the length field is
      replaced by the length of IV plus padded ciphertext (truncated to 16
      bits), since that is what the MAC covers. */
  function EncSetAssociatedData(mode: Mode, idx: nat, ad: seq<Byte>): (r: Result<seq<Byte>>)
    requires ValidMode(mode)
    ensures r.Success? <==> idx == 0 && |ad| == 13
    ensures r.Failure? ==> r.error == InvalidArgument
    ensures r.Success? ==> |r.value| == 13 && r.value[..11] == ad[..11]
    ensures r.Success? && !mode.encryptThenMac ==> r.value == ad
    ensures r.Success? && mode.encryptThenMac ==>
      MakeUint16(r.value[11], r.value[12])
        == Cast16(RoundUp(mode.ivSize + MakeUint16(ad[11], ad[12]) + 1, mode.blockSize))
  {
    var stored :- SetAssociatedData(idx, ad);
    if mode.encryptThenMac then
      var ptSize := MakeUint16(stored[11], stored[12]);
      Success(WithLength(stored, Cast16(RoundUp(mode.ivSize + ptSize + 1, mode.blockSize))))
    else Success(stored)
  }

  /** With the IV as long as a block, the length the encryptor writes into the
      additional data is the decryptor's `enc_size + iv_size` for the record
      that results: the padded ciphertext is round_up(pt + 1, bs) bytes. */
  lemma EtmLengthsAgree(mode: Mode, ptSize: nat)
    requires ValidMode(mode) && mode.encryptThenMac
    ensures EncryptLayout(mode, ptSize).encSize + mode.ivSize
         == RoundUp(mode.ivSize + ptSize + 1, mode.blockSize)
  {
    RoundUpShift(ptSize + 1, mode.blockSize);
    assert mode.ivSize + ptSize + 1 == mode.blockSize + (ptSize + 1);
  }

  // ---------------------------------------------------------------------
  // Encryption

  /** `finish_msg` of the encryption side, given the IV (the CBC state), the
      CBC encryption of a padded buffer and the MAC of a byte string. The
      result is the record the mode appends to the output buffer. */
  function Encrypt(mode: Mode, ad: seq<Byte>, msg: seq<Byte>, iv: seq<Byte>,
                   cbcEncrypt: (seq<Byte>, seq<Byte>) -> seq<Byte>,
                   mac: seq<Byte> -> seq<Byte>): (r: Result<seq<Byte>>)
    requires ValidMode(mode)
    requires forall m :: |mac(m)| == mode.tagSize
    ensures mode.blockSize <= 16 ==> r.Success?
  {
    var layout := EncryptLayout(mode, |msg|);
    if mode.encryptThenMac then
      var padded :- PadFill(msg, layout.padLength, mode.blockSize);
      var ct := cbcEncrypt(iv, padded);
      Success(ct + mac(ad + (if mode.ivSize > 0 then iv else []) + ct))
    else
      var padded :- PadFill(msg + mac(ad + msg), layout.padLength, mode.blockSize);
      Success(cbcEncrypt(iv, padded))
  }

  /** The record has the length `output_length` promises, as long as the
      cipher preserves lengths and the MAC yields `tag_size` bytes. */
  lemma EncryptLength(mode: Mode, ad: seq<Byte>, msg: seq<Byte>, iv: seq<Byte>,
                      cbcEncrypt: (seq<Byte>, seq<Byte>) -> seq<Byte>,
                      mac: seq<Byte> -> seq<Byte>)
    requires ValidMode(mode) && mode.blockSize <= 16
    requires forall p :: |cbcEncrypt(iv, p)| == |p|
    requires forall m :: |mac(m)| == mode.tagSize
    ensures Encrypt(mode, ad, msg, iv, cbcEncrypt, mac).Success?
    ensures |Encrypt(mode, ad, msg, iv, cbcEncrypt, mac).value| == OutputLength(mode, |msg|)
  {
    var layout := EncryptLayout(mode, |msg|);
    assert layout.padLength <= 16;
  }

  // ---------------------------------------------------------------------
  // Decryption

  /** The early length check of `finish_msg`: public values only. */
  predicate RecordLengthOk(mode: Mode, recordLen: nat)
    requires ValidMode(mode)
  {
    recordLen >= mode.tagSize
      && (recordLen - (if mode.encryptThenMac then mode.tagSize else 0)) % mode.blockSize == 0
  }

  /** The tag an Encrypt-then-MAC record must carry: the MAC over the
      additional data with its length field set to ciphertext plus IV size,
      the explicit IV and the ciphertext. */
  predicate EtmAuthentic(mode: Mode, ad: seq<Byte>, record: seq<Byte>, iv: seq<Byte>,
                         mac: seq<Byte> -> seq<Byte>)
  {
    |ad| == 13 && mode.tagSize <= |record| && |record| - mode.tagSize + mode.ivSize < 0x1_0000
    && record[|record| - mode.tagSize..]
       == mac(WithLength(ad, |record| - mode.tagSize + mode.ivSize)
              + (if mode.ivSize > 0 then iv else []) + record[..|record| - mode.tagSize])
  }

  /** Encrypt-then-MAC decryption: length check, MAC over additional data,
      IV and ciphertext, then CBC decryption and the padding check. */
  function DecryptEtm(mode: Mode, ad: seq<Byte>, record: seq<Byte>, iv: seq<Byte>,
                      cbcDecrypt: (seq<Byte>, seq<Byte>) -> seq<Byte>,
                      mac: seq<Byte> -> seq<Byte>): (r: Result<seq<Byte>>)
    requires ValidMode(mode) && mode.encryptThenMac
    requires forall c :: |cbcDecrypt(iv, c)| == |c|
    ensures !RecordLengthOk(mode, |record|) ==> r == Failure(BadRecordMac)
    ensures r.Success? ==> |r.value| < |record| - mode.tagSize
    ensures r.Success? ==> EtmAuthentic(mode, ad, record, iv, mac)
    ensures r.Success? ==>
      var plain := cbcDecrypt(iv, record[..|record| - mode.tagSize]);
      PaddingLength(plain) != 0 && |r.value| + PaddingLength(plain) == |plain|
      && r.value == plain[..|r.value|]
  {
    if !RecordLengthOk(mode, |record|) then Failure(BadRecordMac)
    else
      var encSize := |record| - mode.tagSize;
      var encIvSize := encSize + mode.ivSize;
      if encIvSize > 0xFFFF then Failure(AssertionFailure)
      else
        var adWithLen :- AssocDataWithLen(ad, encIvSize);
        var macInput := adWithLen + (if mode.ivSize > 0 then iv else []) + record[..encSize];
        if record[encSize..] != mac(macInput) then Failure(BadRecordMac)
        else if encSize == 0 then Failure(DecodingError)
        else
          var plain := cbcDecrypt(iv, record[..encSize]);
          var padSize := PaddingLength(plain);
          if padSize == 0 then Failure(BadRecordMac)
          else Success(plain[..encSize - padSize])
  }

  /** The MAC-then-encrypt acceptance decision on the CBC-decrypted record. */
  datatype MteDecision = MteDecision(padSize: nat, sizeOk: bool, plaintextLength: Uint16, macOffset: nat)

  /** The masks of the MAC-then-encrypt path: the padding length is forced to
      0 unless tag and padding fit in the record; the plaintext length and
      the MAC offset follow from it. */
  function MteDecide(mode: Mode, plain: seq<Byte>): (d: MteDecision)
    requires ValidMode(mode) && |plain| >= mode.tagSize
    ensures d.sizeOk ==> d.padSize == PaddingLength(plain)
    ensures !d.sizeOk ==> d.padSize == 0
    ensures d.padSize != 0 ==> d.sizeOk && mode.tagSize + d.padSize <= |plain|
    ensures d.macOffset + mode.tagSize <= |plain| && d.plaintextLength <= d.macOffset
    ensures d.padSize != 0 ==> d.plaintextLength == d.macOffset
    ensures d.padSize != 0 ==> d.plaintextLength + mode.tagSize + d.padSize == |plain|
  {
    var padCheck := PaddingLength(plain);
    var sizeOk := Cast16(mode.tagSize + padCheck) <= Cast16(|plain|);
    var padSize := if sizeOk then padCheck else 0;
    var ptLen := Cast16(|plain| - mode.tagSize - padSize);
    MteDecision(padSize, sizeOk, ptLen, |plain| - (mode.tagSize + padSize))
  }

  /** The acceptance decision of the MAC-then-encrypt path on the decrypted
      record: the plaintext is released only when the size check, the MAC
      check and a non-zero padding length all hold. */
  function MteAccept(mode: Mode, ad: seq<Byte>, plain: seq<Byte>, mac: seq<Byte> -> seq<Byte>): (r: Result<seq<Byte>>)
    requires ValidMode(mode) && |plain| >= mode.tagSize
    ensures r.Success? ==> |ad| == 13 && PaddingLength(plain) != 0
    ensures r.Success? ==> |r.value| + mode.tagSize + PaddingLength(plain) == |plain|
    ensures r.Success? ==> r.value == plain[..|r.value|]
    ensures r.Success? ==>
      plain[|r.value|..|r.value| + mode.tagSize] == mac(WithLength(ad, |r.value|) + r.value)
  {
    var d := MteDecide(mode, plain);
    var adWithLen :- AssocDataWithLen(ad, d.plaintextLength);
    var plaintext := plain[..d.plaintextLength];
    var macOk := plain[d.macOffset..d.macOffset + mode.tagSize] == mac(adWithLen + plaintext);
    if d.sizeOk && macOk && d.padSize != 0 then Success(plaintext)
    else Failure(BadRecordMac)
  }

  /** MAC-then-encrypt decryption: the early length check, CBC decryption of
      the whole record, then the acceptance decision. */
  function DecryptMte(mode: Mode, ad: seq<Byte>, record: seq<Byte>, iv: seq<Byte>,
                      cbcDecrypt: (seq<Byte>, seq<Byte>) -> seq<Byte>,
                      mac: seq<Byte> -> seq<Byte>): (r: Result<seq<Byte>>)
    requires ValidMode(mode) && !mode.encryptThenMac
    requires forall c :: |cbcDecrypt(iv, c)| == |c|
    ensures !RecordLengthOk(mode, |record|) ==> r == Failure(BadRecordMac)
    ensures r.Success? ==> |r.value| < |record| - mode.tagSize
    ensures r.Success? ==>
      var plain := cbcDecrypt(iv, record);
      |ad| == 13 && PaddingLength(plain) != 0
      && |r.value| + mode.tagSize + PaddingLength(plain) == |plain| && r.value == plain[..|r.value|]
      && plain[|r.value|..|r.value| + mode.tagSize] == mac(WithLength(ad, |r.value|) + r.value)
  {
    if !RecordLengthOk(mode, |record|) then Failure(BadRecordMac)
    else if |record| == 0 then Failure(DecodingError)
    else MteAccept(mode, ad, cbcDecrypt(iv, record), mac)
  }

  /** The decryptor accepts every record the encryptor produces and returns
      the original message (MAC-then-encrypt), provided the additional data
      carries the message length and the record stays within 16-bit lengths. */
  lemma {:induction false} MteRoundTrip(mode: Mode, ad: seq<Byte>, msg: seq<Byte>, iv: seq<Byte>,
                                        cbcEncrypt: (seq<Byte>, seq<Byte>) -> seq<Byte>,
                                        cbcDecrypt: (seq<Byte>, seq<Byte>) -> seq<Byte>,
                                        mac: seq<Byte> -> seq<Byte>)
    requires ValidMode(mode) && !mode.encryptThenMac && mode.blockSize <= 16
    requires forall p :: cbcDecrypt(iv, cbcEncrypt(iv, p)) == p
    requires forall c :: |cbcDecrypt(iv, c)| == |c|
    requires forall p :: |cbcEncrypt(iv, p)| == |p|
    requires forall m :: |mac(m)| == mode.tagSize
    requires |ad| == 13 && MakeUint16(ad[11], ad[12]) == |msg|
    requires |msg| + mode.tagSize + mode.blockSize <= 0xFFFF
    ensures Encrypt(mode, ad, msg, iv, cbcEncrypt, mac).Success?
    ensures DecryptMte(mode, ad, Encrypt(mode, ad, msg, iv, cbcEncrypt, mac).value, iv, cbcDecrypt, mac)
         == Success(msg)
  {
    var padded := MteEncrypts(mode, ad, msg, iv, cbcEncrypt, mac);
    var record := cbcEncrypt(iv, padded);
    assert cbcDecrypt(iv, record) == padded;
    MteAcceptsPadded(mode, ad, msg, padded, EncryptLayout(mode, |msg|).padLength, mac);
  }

  /** The MAC-then-encrypt record is the CBC encryption of message, tag and
      padding, in that order, and its length is a whole number of blocks. */
  lemma MteEncrypts(mode: Mode, ad: seq<Byte>, msg: seq<Byte>, iv: seq<Byte>,
                    cbcEncrypt: (seq<Byte>, seq<Byte>) -> seq<Byte>,
                    mac: seq<Byte> -> seq<Byte>) returns (padded: seq<Byte>)
    requires ValidMode(mode) && !mode.encryptThenMac && mode.blockSize <= 16
    requires forall m :: |mac(m)| == mode.tagSize
    requires |msg| + mode.tagSize + mode.blockSize <= 0xFFFF
    ensures Encrypt(mode, ad, msg, iv, cbcEncrypt, mac) == Success(cbcEncrypt(iv, padded))
    ensures |padded| == |msg| + mode.tagSize + EncryptLayout(mode, |msg|).padLength
    ensures |padded| % mode.blockSize == 0 && |padded| <= 0xFFFF
    ensures PaddingLength(padded) == EncryptLayout(mode, |msg|).padLength
    ensures padded[..|msg|] == msg && padded[|msg|..|msg| + mode.tagSize] == mac(ad + msg)
  {
    var layout := EncryptLayout(mode, |msg|);
    var body := msg + mac(ad + msg);
    padded := PadFill(body, layout.padLength, mode.blockSize).value;
    PadFillThenCheck(body, layout.padLength, mode.blockSize);
    assert padded[..|body|] == body;
    assert padded[..|msg|] == body[..|msg|];
    assert padded[|msg|..|msg| + mode.tagSize] == body[|msg|..];
  }

  /** The MAC-then-encrypt decision accepts a decrypted record made of the
      message, its tag and valid padding, when the additional data carries
      the message length. */
  lemma MteAcceptsPadded(mode: Mode, ad: seq<Byte>, msg: seq<Byte>, padded: seq<Byte>, padLength: nat,
                         mac: seq<Byte> -> seq<Byte>)
    requires ValidMode(mode) && !mode.encryptThenMac
    requires |ad| == 13 && MakeUint16(ad[11], ad[12]) == |msg|
    requires 1 <= padLength && |padded| == |msg| + mode.tagSize + padLength && |padded| <= 0xFFFF
    requires PaddingLength(padded) == padLength
    requires padded[..|msg|] == msg && padded[|msg|..|msg| + mode.tagSize] == mac(ad + msg)
    ensures MteAccept(mode, ad, padded, mac) == Success(msg)
  {
    MteDecideOnPadded(mode, padded, |msg|, padLength);
    WithOwnLength(ad);
    assert AssocDataWithLen(ad, |msg|) == Success(ad);
  }

  /** On a well-formed decrypted record the masks pass the size check and
      place the tag right after the message. */
  lemma MteDecideOnPadded(mode: Mode, plain: seq<Byte>, msgLen: nat, padLength: nat)
    requires ValidMode(mode)
    requires 1 <= padLength && |plain| == msgLen + mode.tagSize + padLength && |plain| <= 0xFFFF
    requires PaddingLength(plain) == padLength
    ensures MteDecide(mode, plain) == MteDecision(padLength, true, msgLen, msgLen)
  {
    assert Cast16(mode.tagSize + padLength) == mode.tagSize + padLength;
    assert Cast16(|plain|) == |plain|;
    assert Cast16(|plain| - mode.tagSize - padLength) == msgLen;
  }

  /** The same round trip for Encrypt-then-MAC: the MAC the decryptor
      recomputes matches because both sides put the same length into the
      additional data. */
  lemma {:induction false} EtmRoundTrip(mode: Mode, ad: seq<Byte>, msg: seq<Byte>, iv: seq<Byte>,
                                        cbcEncrypt: (seq<Byte>, seq<Byte>) -> seq<Byte>,
                                        cbcDecrypt: (seq<Byte>, seq<Byte>) -> seq<Byte>,
                                        mac: seq<Byte> -> seq<Byte>)
    requires ValidMode(mode) && mode.encryptThenMac && mode.blockSize <= 16
    requires forall p :: cbcDecrypt(iv, cbcEncrypt(iv, p)) == p
    requires forall c :: |cbcDecrypt(iv, c)| == |c|
    requires forall p :: |cbcEncrypt(iv, p)| == |p|
    requires forall m :: |mac(m)| == mode.tagSize
    requires |ad| == 13 && MakeUint16(ad[11], ad[12]) == |msg|
    requires |msg| + 2 * mode.blockSize < 0xFFFF
    ensures EncSetAssociatedData(mode, 0, ad).Success?
    ensures Encrypt(mode, EncSetAssociatedData(mode, 0, ad).value, msg, iv, cbcEncrypt, mac).Success?
    ensures DecryptEtm(mode, ad, Encrypt(mode, EncSetAssociatedData(mode, 0, ad).value, msg, iv, cbcEncrypt, mac).value,
                       iv, cbcDecrypt, mac)
         == Success(msg)
  {
    var encAd := EncSetAssociatedData(mode, 0, ad).value;
    EtmAssociatedData(mode, ad, |msg|);
    var padded := EtmEncrypts(mode, encAd, msg, iv, cbcEncrypt, mac);
    var ct := cbcEncrypt(iv, padded);
    assert |ct| == |padded|;
    assert encAd == WithLength(ad, |ct| + mode.ivSize);
    var record := ct + mac(encAd + (if mode.ivSize > 0 then iv else []) + ct);
    assert Encrypt(mode, encAd, msg, iv, cbcEncrypt, mac) == Success(record);
    assert cbcDecrypt(iv, ct) == padded;
    EtmDecryptAccepts(mode, ad, msg, iv, ct, padded, EncryptLayout(mode, |msg|).padLength, cbcDecrypt, mac);
    assert DecryptEtm(mode, ad, record, iv, cbcDecrypt, mac) == Success(msg);
  }

  /** The Encrypt-then-MAC record is the CBC encryption of message and
      padding, followed by the tag over additional data, IV and ciphertext. */
  lemma EtmEncrypts(mode: Mode, encAd: seq<Byte>, msg: seq<Byte>, iv: seq<Byte>,
                    cbcEncrypt: (seq<Byte>, seq<Byte>) -> seq<Byte>,
                    mac: seq<Byte> -> seq<Byte>) returns (padded: seq<Byte>)
    requires ValidMode(mode) && mode.encryptThenMac && mode.blockSize <= 16
    requires forall m :: |mac(m)| == mode.tagSize
    requires |msg| + 2 * mode.blockSize < 0xFFFF
    ensures Encrypt(mode, encAd, msg, iv, cbcEncrypt, mac)
         == Success(cbcEncrypt(iv, padded)
                    + mac(encAd + (if mode.ivSize > 0 then iv else []) + cbcEncrypt(iv, padded)))
    ensures |padded| == EncryptLayout(mode, |msg|).encSize
    ensures |padded| == |msg| + EncryptLayout(mode, |msg|).padLength
    ensures PaddingLength(padded) == EncryptLayout(mode, |msg|).padLength
    ensures padded[..|msg|] == msg
  {
    var layout := EncryptLayout(mode, |msg|);
    padded := PadFill(msg, layout.padLength, mode.blockSize).value;
    PadFillThenCheck(msg, layout.padLength, mode.blockSize);
  }

  /** Both sides of Encrypt-then-MAC put the same length, that of IV and
      ciphertext, into the additional data. */
  lemma EtmAssociatedData(mode: Mode, ad: seq<Byte>, msgLen: nat)
    requires ValidMode(mode) && mode.encryptThenMac && mode.blockSize <= 16
    requires |ad| == 13 && MakeUint16(ad[11], ad[12]) == msgLen
    requires msgLen + 2 * mode.blockSize < 0xFFFF
    ensures EncryptLayout(mode, msgLen).encSize + mode.ivSize <= 0xFFFF
    ensures EncSetAssociatedData(mode, 0, ad).value
         == WithLength(ad, EncryptLayout(mode, msgLen).encSize + mode.ivSize)
  {
    var encIvSize := EncryptLayout(mode, msgLen).encSize + mode.ivSize;
    EtmLengthsAgree(mode, msgLen);
    assert Cast16(encIvSize) == encIvSize;
    LengthFieldDetermines(EncSetAssociatedData(mode, 0, ad).value, ad, encIvSize);
  }

  /** Thirteen bytes that agree with ad on the first eleven and hold len in the
      length field are `WithLength(ad, len)`. */
  lemma LengthFieldDetermines(r: seq<Byte>, ad: seq<Byte>, len: Uint16)
    requires |r| == 13 && |ad| == 13 && r[..11] == ad[..11] && MakeUint16(r[11], r[12]) == len
    ensures r == WithLength(ad, len)
  {
    var w := WithLength(ad, len);
    DivModUnique(len, 256, r[11], r[12]);
    DivModUnique(len, 256, w[11], w[12]);
    assert r[..11] == w[..11];
    assert forall i | 0 <= i < 13 :: r[i] == (if i < 11 then r[..11][i] else r[i]);
  }

  /** The Encrypt-then-MAC decryptor accepts a record whose tag covers the
      additional data with the right length, and strips the padding. */
  lemma EtmDecryptAccepts(mode: Mode, ad: seq<Byte>, msg: seq<Byte>, iv: seq<Byte>,
                          ct: seq<Byte>, padded: seq<Byte>, padLength: nat,
                          cbcDecrypt: (seq<Byte>, seq<Byte>) -> seq<Byte>,
                          mac: seq<Byte> -> seq<Byte>)
    requires ValidMode(mode) && mode.encryptThenMac && |ad| == 13
    requires forall c :: |cbcDecrypt(iv, c)| == |c|
    requires forall m :: |mac(m)| == mode.tagSize
    requires |ct| % mode.blockSize == 0 && mode.blockSize <= |ct| && |ct| + mode.ivSize <= 0xFFFF
    requires cbcDecrypt(iv, ct) == padded && PaddingLength(padded) == padLength
    requires 0 < padLength && |msg| + padLength == |ct| && padded[..|msg|] == msg
    ensures DecryptEtm(mode, ad,
                       ct + mac(WithLength(ad, |ct| + mode.ivSize) + (if mode.ivSize > 0 then iv else []) + ct),
                       iv, cbcDecrypt, mac)
         == Success(msg)
  {
    var ivPart := if mode.ivSize > 0 then iv else [];
    var record := ct + mac(WithLength(ad, |ct| + mode.ivSize) + ivPart + ct);
    assert RecordLengthOk(mode, |record|);
    assert record[..|ct|] == ct;
    assert record[|ct|..] == mac(WithLength(ad, |ct| + mode.ivSize) + ivPart + ct);
  }

  // ---------------------------------------------------------------------
  // Lucky 13 countermeasure

  /** Number of hash compressions for `len` MACed bytes (beyond the first
      block), with block size `bs` and `first` bytes fitting the first one. */
  function Compressions(len: nat, bs: nat, first: nat): nat
    requires bs > 0 && first < bs
  {
    (len + bs - 1 - first) / bs
  }

  /** `perform_additional_compressions`: the number of dummy bytes fed to the
      MAC after a failed record, all in 16-bit arithmetic. */
  function DummyMacBytes(isSha384: bool, plen: nat, padlen: nat, tagSize: nat): (r: Uint16)
    requires tagSize + padlen <= plen
    ensures r == (if isSha384 then 111 else 55) || r % (if isSha384 then 128 else 64) == 0
  {
    var bs := if isSha384 then 128 else 64;
    var first := if isSha384 then 111 else 55;
    var l1 := Cast16(13 + plen - tagSize);
    var l2 := Cast16(13 + plen - padlen - tagSize);
    var maxComp := Cast16(Compressions(l1, bs, first));
    var curComp := Cast16(Compressions(l2, bs, first));
    var addComp := (maxComp - curComp) % 0x1_0000;
    var equal := if maxComp == curComp then 1 else 0;
    WrapKeepsMultiple(bs, addComp);
    (bs * addComp + equal * first) % 0x1_0000
  }

  /** A multiple of the hash block size stays one after a 16-bit cast. */
  lemma WrapKeepsMultiple(bs: nat, a: int)
    requires bs == 64 || bs == 128
    ensures ((bs * a) % 0x1_0000) % bs == 0
  {
    var k := 0x1_0000 / bs;
    var q := (bs * a) / 0x1_0000;
    assert 0x1_0000 == k * bs;
    assert (bs * a) % 0x1_0000 == bs * a - 0x1_0000 * q;
    assert bs * a - 0x1_0000 * q == (a - k * q) * bs;
    ModAddMultiple(a - k * q, bs, 0);
  }

  /** Without 16-bit wrap-around, the dummy bytes bring the compressions for
      the shorter MAC input up to those of the longest possible one; when
      they already agree, a sub-block of dummy bytes is fed instead. */
  lemma DummyMacBytesEqualize(isSha384: bool, plen: nat, padlen: nat, tagSize: nat)
    requires tagSize + padlen <= plen && 13 + plen <= 0xFFFF && padlen <= 256
    ensures var bs := if isSha384 then 128 else 64;
            var first := if isSha384 then 111 else 55;
            var l1 := 13 + plen - tagSize;
            var l2 := 13 + plen - padlen - tagSize;
            var r := DummyMacBytes(isSha384, plen, padlen, tagSize);
            && (Compressions(l1, bs, first) == Compressions(l2, bs, first) ==> r == first)
            && (Compressions(l1, bs, first) != Compressions(l2, bs, first) ==>
                  r % bs == 0 && Compressions(l2 + r, bs, first) == Compressions(l1, bs, first))
  {
    var bs := if isSha384 then 128 else 64;
    var first := if isSha384 then 111 else 55;
    var l1 := 13 + plen - tagSize;
    var l2 := 13 + plen - padlen - tagSize;
    var k := CompressionGap(l1, l2, bs, first);
    var c1 := Compressions(l1, bs, first);
    MulLeMono(64, bs, c1);
    assert c1 < 0x1_0000;
    var c2 := Compressions(l2, bs, first);
    DummyMacBytesUnfold(isSha384, plen, padlen, tagSize, bs, first, l1, l2, c1, c2);
    if k != 0 {
      ModAddMultiple(k, bs, 0);
    }
  }

  /** DummyMacBytes with its 16-bit casts removed, when nothing wraps. */
  lemma DummyMacBytesUnfold(isSha384: bool, plen: nat, padlen: nat, tagSize: nat,
                            bs: nat, first: nat, l1: nat, l2: nat, c1: nat, c2: nat)
    requires tagSize + padlen <= plen && 13 + plen <= 0xFFFF
    requires bs == (if isSha384 then 128 else 64) && first == (if isSha384 then 111 else 55)
    requires l1 == 13 + plen - tagSize && l2 == 13 + plen - padlen - tagSize
    requires c1 == Compressions(l1, bs, first) && c2 == Compressions(l2, bs, first)
    requires c2 <= c1 < 0x1_0000 && (c1 - c2) * bs < 0x1_0000
    ensures DummyMacBytes(isSha384, plen, padlen, tagSize) == (if c1 == c2 then first else bs * (c1 - c2))
  {
    Cast16Small(l1);
    Cast16Small(l2);
    Cast16Small(c1);
    Cast16Small(c2);
    GapSmall(c1 - c2, bs);
    DummyMacArith(bs, first, c1 - c2, if c1 == c2 then 1 else 0);
  }

  lemma Cast16Small(x: nat)
    requires x < 0x1_0000
    ensures Cast16(x) == x
  {
  }

  lemma GapSmall(k: nat, bs: nat)
    requires bs > 0 && k * bs < 0x1_0000
    ensures k % 0x1_0000 == k
  {
    MulLeMono(1, bs, k);
  }

  /** The final 16-bit sum: either the dummy blocks or the `first` bytes. */
  lemma DummyMacArith(bs: nat, first: nat, k: nat, equal: nat)
    requires bs * k < 0x1_0000 && first < 0x1_0000
    requires equal == (if k == 0 then 1 else 0)
    ensures (bs * k + equal * first) % 0x1_0000 == (if k == 0 then first else bs * k)
  {
  }

  /** The compression counts of two lengths differ by k, and feeding k more
      blocks to the shorter input makes up the difference. */
  lemma CompressionGap(l1: nat, l2: nat, bs: nat, first: nat) returns (k: nat)
    requires 0 < bs && first < bs && l2 <= l1 && l1 - l2 <= 0x1_0000 - 2 * bs
    ensures k == Compressions(l1, bs, first) - Compressions(l2, bs, first)
    ensures k * bs < 0x1_0000
    ensures Compressions(l1, bs, first) * bs <= l1 + bs
    ensures Compressions(l2 + bs * k, bs, first) == Compressions(l1, bs, first)
  {
    var a1 := l1 + bs - 1 - first;
    var a2 := l2 + bs - 1 - first;
    k := QuotientGap(a1, a2, bs);
    MulComm(bs, k);
    assert l2 + bs * k + bs - 1 - first == a2 + k * bs;
  }

  lemma MulComm(a: nat, b: nat)
    ensures a * b == b * a
  {
  }

  /** Quotients by bs of two numbers differ by at most their distance over bs
      (rounded up), and adding the difference back closes the gap. */
  lemma QuotientGap(a1: nat, a2: nat, bs: nat) returns (k: nat)
    requires 0 < bs && a2 <= a1
    ensures k == a1 / bs - a2 / bs
    ensures k * bs <= a1 - a2 + bs - 1
    ensures (a1 / bs) * bs <= a1
    ensures (a2 + k * bs) / bs == a1 / bs
  {
    var c1, r1 := a1 / bs, a1 % bs;
    var c2, r2 := a2 / bs, a2 % bs;
    if c1 < c2 {
      MulLeMono(c1 + 1, c2, bs);
      assert false;
    }
    k := c1 - c2;
    assert k * bs == c1 * bs - c2 * bs;
    ModAddMultiple(k, bs, a2);
  }
}
