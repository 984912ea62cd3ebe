/**
 * Reading an NTAG / MIFARE Ultralight tag and extracting its identity text.
 *
 * The tag's user memory is a sequence of TLV blocks (section 2.3 of the NFC Forum Type 2 Tag
 * Operation specification): a type byte, a length (one byte, or 0xFF followed by a big-endian
 * 16-bit length) and that many value bytes. The scanner below follows the firmware, which reads
 * a length byte after every type byte, the NULL (0x00) and Terminator (0xFE) types included,
 * and skips no value bytes after a NULL block.
 *
 * The MFRC522 reader is not modelled: each handshake step is a given outcome and each page read
 * a given response. The NDEF record decoder of the `ndef` library is a given function.
 */
module NfcReader {
  import opened Wrappers
  import opened Whitespace

  type byte = x: int | 0 <= x < 256

  const NULL_TLV: byte := 0x00
  const NDEF_MESSAGE_TLV: byte := 0x03
  const TERMINATOR_TLV: byte := 0xFE
  /** A length byte with this value announces the three-byte length form. */
  const LONG_LENGTH: byte := 0xFF

  /**
   * The record layer of the `ndef` library: the bytes of an NDEF message to the text of its
   * first text record; None when it has none or when decoding raises.
   */
  type RecordDecoder = seq<byte> -> Option<string>

  /** A TLV header as the scanner reads it: the type, the declared length, where the value starts. */
  datatype Header = Header(tlvType: byte, length: nat, valueStart: nat)

  /** Reads the header of the block at `offset`; None when the data ends inside the header. */
  function ReadHeader(raw: seq<byte>, offset: nat): (h: Option<Header>)
    requires offset < |raw|
    ensures h.Some? <==> offset + 2 <= |raw| && (raw[offset + 1] == LONG_LENGTH ==> offset + 4 <= |raw|)
    ensures h.Some? ==> h.value.tlvType == raw[offset] && h.value.valueStart <= |raw|
    ensures h.Some? && raw[offset + 1] != LONG_LENGTH ==>
              h.value.length == raw[offset + 1] && h.value.valueStart == offset + 2
    ensures h.Some? && raw[offset + 1] == LONG_LENGTH ==>
              h.value.length == (raw[offset + 2] as int) * 256 + raw[offset + 3] && h.value.valueStart == offset + 4
  {
    if offset + 1 >= |raw| then None
    else if raw[offset + 1] != LONG_LENGTH then Some(Header(raw[offset], raw[offset + 1], offset + 2))
    else if offset + 4 > |raw| then None
    else Some(Header(raw[offset], (raw[offset + 2] as int) * 256 + raw[offset + 3], offset + 4))
  }

  /** What scanning the blocks from `offset` on yields. */
  function ScanFrom(raw: seq<byte>, offset: nat, decode: RecordDecoder): Option<string>
    requires offset <= |raw|
    decreases |raw| - offset
  {
    if offset == |raw| then None
    else match ReadHeader(raw, offset)
      case None => None
      case Some(h) =>
        if h.tlvType == NDEF_MESSAGE_TLV then
          if h.valueStart + h.length > |raw| then None
          else decode(raw[h.valueStart .. h.valueStart + h.length])
        else if h.tlvType == NULL_TLV then ScanFrom(raw, h.valueStart, decode)
        else if h.tlvType == TERMINATOR_TLV then None
        else if h.valueStart + h.length > |raw| then None
        else ScanFrom(raw, h.valueStart + h.length, decode)
  }

  /** The identity text found in the raw memory `raw`, as `parse_ndef_message` returns it. */
  function ParseNdef(raw: seq<byte>, decode: RecordDecoder): Option<string> {
    ScanFrom(raw, 0, decode)
  }

  /** `parse_ndef_message`: walks the TLV blocks with a moving offset. */
  method ParseNdefMessage(raw: seq<byte>, decode: RecordDecoder) returns (text: Option<string>)
    ensures text == ParseNdef(raw, decode)
  {
    var offset := 0;
    while offset < |raw|
      invariant offset <= |raw|
      invariant ScanFrom(raw, offset, decode) == ParseNdef(raw, decode)
      decreases |raw| - offset
    {
      ghost var blockStart := offset;
      var tlvType := raw[offset];
      offset := offset + 1;
      if offset >= |raw| {
        // the data ends right after the type byte
        assert ScanFrom(raw, blockStart, decode) == None;
        break;
      }
      var tlvLength: nat := raw[offset];
      offset := offset + 1;
      if tlvLength == LONG_LENGTH {
        if offset + 2 > |raw| {
          assert ScanFrom(raw, blockStart, decode) == None;
          break;
        }
        tlvLength := (raw[offset] as int) * 256 + raw[offset + 1];
        offset := offset + 2;
      }
      if tlvType == NDEF_MESSAGE_TLV {
        var msgEnd := offset + tlvLength;
        if msgEnd > |raw| {
          assert ScanFrom(raw, blockStart, decode) == None;
          break;
        }
        // only the first NDEF Message block is ever decoded
        text := decode(raw[offset..msgEnd]);
        return;
      } else if tlvType == NULL_TLV {
        continue;
      } else if tlvType == TERMINATOR_TLV {
        assert ScanFrom(raw, blockStart, decode) == None;
        break;
      } else {
        offset := offset + tlvLength;
        if offset > |raw| {
          assert ScanFrom(raw, blockStart, decode) == None;
          break;
        }
      }
    }
    text := None;
  }

  // ---------------------------------------------------------------------------------------
  // Properties of the scan

  /** Whatever the scan returns is the decoding of some stretch of the raw memory. */
  lemma {:induction false} ScanResultIsDecodedSlice(raw: seq<byte>, offset: nat, decode: RecordDecoder)
    requires offset <= |raw|
    requires ScanFrom(raw, offset, decode).Some?
    ensures exists i, j :: offset <= i <= j <= |raw| && decode(raw[i..j]) == ScanFrom(raw, offset, decode)
    decreases |raw| - offset
  {
    var h := ReadHeader(raw, offset).value;
    if h.tlvType == NDEF_MESSAGE_TLV {
      assert decode(raw[h.valueStart .. h.valueStart + h.length]) == ScanFrom(raw, offset, decode);
    } else if h.tlvType == NULL_TLV {
      ScanResultIsDecodedSlice(raw, h.valueStart, decode);
    } else {
      ScanResultIsDecodedSlice(raw, h.valueStart + h.length, decode);
    }
  }

  /** The scan from an offset looks only at the bytes from that offset on. */
  lemma {:induction false} ScanShift(prefix: seq<byte>, raw: seq<byte>, offset: nat, decode: RecordDecoder)
    requires offset <= |raw|
    ensures ScanFrom(prefix + raw, |prefix| + offset, decode) == ScanFrom(raw, offset, decode)
    decreases |raw| - offset
  {
    var all := prefix + raw;
    if offset < |raw| {
      ReadHeaderShift(prefix, raw, offset);
      var h := ReadHeader(raw, offset);
      if h.Some? {
        var v := h.value;
        if v.tlvType == NDEF_MESSAGE_TLV && v.valueStart + v.length <= |raw| {
          assert all[|prefix| + v.valueStart .. |prefix| + v.valueStart + v.length]
              == raw[v.valueStart .. v.valueStart + v.length];
        } else if v.tlvType == NULL_TLV {
          ScanShift(prefix, raw, v.valueStart, decode);
        } else if v.tlvType != TERMINATOR_TLV && v.valueStart + v.length <= |raw| {
          ScanShift(prefix, raw, v.valueStart + v.length, decode);
        }
      }
    }
  }

  /** A header reads the same after a prefix, its value start moved by the prefix's length. */
  lemma {:induction false} ReadHeaderShift(prefix: seq<byte>, raw: seq<byte>, offset: nat)
    requires offset < |raw|
    ensures var h := ReadHeader(raw, offset); var h' := ReadHeader(prefix + raw, |prefix| + offset);
      h'.Some? == h.Some? &&
      (h.Some? ==> h'.value == Header(h.value.tlvType, h.value.length, |prefix| + h.value.valueStart))
  {
    var all := prefix + raw;
    var o := |prefix| + offset;
    assert all[o] == raw[offset];
    if offset + 1 < |raw| {
      assert all[o + 1] == raw[offset + 1];
    }
    if offset + 3 < |raw| {
      assert all[o + 2] == raw[offset + 2] && all[o + 3] == raw[offset + 3];
    }
  }

  // ---------------------------------------------------------------------------------------
  // A reference encoder: tag memory written the way section 2.3 of the NFC Forum Type 2 Tag
  // Operation specification lays it out.

  /** A TLV block as the standard defines it. */
  datatype Tlv =
    | NullBlock                                   // one byte, no length field
    | NdefMessage(message: seq<byte>)
    | Terminator                                  // one byte, no length field
    | Proprietary(tlvType: byte, value: seq<byte>)  // lock/memory control and other types

  /** The length field: one byte up to 0xFE, else 0xFF and two big-endian bytes. */
  function LengthField(n: nat): (f: seq<byte>)
    requires n < 0x1_0000
    ensures |f| == 1 || |f| == 3
    ensures |f| == 1 <==> n < LONG_LENGTH
    ensures |f| == 1 ==> f[0] == n
    ensures |f| == 3 ==> f[0] == LONG_LENGTH && (f[1] as int) * 256 + f[2] == n
  {
    if n < LONG_LENGTH as nat then [n] else [LONG_LENGTH, n / 256, n % 256]
  }

  predicate Encodable(b: Tlv) {
    match b
    case NdefMessage(m) => |m| < 0x1_0000
    case Proprietary(t, v) =>
      t != NULL_TLV && t != NDEF_MESSAGE_TLV && t != TERMINATOR_TLV && |v| < 0x1_0000
    case _ => true
  }

  function EncodeBlock(b: Tlv): (e: seq<byte>)
    requires Encodable(b)
    ensures |e| >= 1
  {
    match b
    case NullBlock => [NULL_TLV]
    case NdefMessage(m) => [NDEF_MESSAGE_TLV] + LengthField(|m|) + m
    case Terminator => [TERMINATOR_TLV]
    case Proprietary(t, v) => [t] + LengthField(|v|) + v
  }

  function Encode(blocks: seq<Tlv>): seq<byte>
    requires forall i :: 0 <= i < |blocks| ==> Encodable(blocks[i])
  {
    if blocks == [] then [] else EncodeBlock(blocks[0]) + Encode(blocks[1..])
  }

  /** The scanner steps over one well-formed block of any type it does not act on. */
  lemma {:induction false} SkipProprietary(t: byte, v: seq<byte>, rest: seq<byte>, decode: RecordDecoder)
    requires Encodable(Proprietary(t, v))
    ensures ScanFrom(EncodeBlock(Proprietary(t, v)) + rest, 0, decode) == ScanFrom(rest, 0, decode)
  {
    var e := EncodeBlock(Proprietary(t, v));
    var raw := e + rest;
    var lf := LengthField(|v|);
    assert raw[0] == t && raw[1] == lf[0];
    if |lf| == 3 {
      assert raw[2] == lf[1] && raw[3] == lf[2];
    }
    var h := ReadHeader(raw, 0).value;
    assert h.valueStart == 1 + |lf| && h.length == |v| && h.valueStart + h.length == |e|;
    ScanShift(e, rest, 0, decode);
  }

  /** Any run of such blocks in front of `rest` is stepped over. */
  lemma {:induction false} SkipProprietaryBlocks(blocks: seq<Tlv>, rest: seq<byte>, decode: RecordDecoder)
    requires forall i :: 0 <= i < |blocks| ==> blocks[i].Proprietary? && Encodable(blocks[i])
    ensures ScanFrom(Encode(blocks) + rest, 0, decode) == ScanFrom(rest, 0, decode)
  {
    if blocks != [] {
      var b := blocks[0];
      var later := blocks[1..];
      assert forall i :: 0 <= i < |later| ==> later[i] == blocks[i + 1];
      var tail := Encode(later) + rest;
      assert Encode(blocks) == EncodeBlock(b) + Encode(later);
      assert Encode(blocks) + rest == EncodeBlock(b) + tail;
      SkipProprietary(b.tlvType, b.value, tail, decode);
      SkipProprietaryBlocks(later, rest, decode);
    } else {
      assert Encode(blocks) + rest == rest;
    }
  }

  /** An NDEF Message block at the start of the memory is decoded, whatever follows it. */
  lemma {:induction false} ScanNdefMessageBlock(message: seq<byte>, rest: seq<byte>, decode: RecordDecoder)
    requires |message| < 0x1_0000
    ensures ScanFrom(EncodeBlock(NdefMessage(message)) + rest, 0, decode) == decode(message)
  {
    var raw := EncodeBlock(NdefMessage(message)) + rest;
    var lf := LengthField(|message|);
    assert raw == [NDEF_MESSAGE_TLV] + lf + message + rest;
    assert raw[0] == NDEF_MESSAGE_TLV && raw[1] == lf[0];
    if |lf| == 3 {
      assert raw[2] == lf[1] && raw[3] == lf[2];
    }
    var h := ReadHeader(raw, 0).value;
    assert h.valueStart == 1 + |lf| && h.length == |message|;
    assert raw[h.valueStart .. h.valueStart + h.length] == message;
  }

  /**
   * Round trip: memory holding proprietary blocks, then an NDEF Message block, then anything
   * at all, decodes to whatever the record decoder makes of that message. Nothing after the
   * first NDEF Message block is looked at.
   */
  lemma {:induction false} NdefMessageRoundTrip(blocks: seq<Tlv>, message: seq<byte>, rest: seq<byte>, decode: RecordDecoder)
    requires forall i :: 0 <= i < |blocks| ==> blocks[i].Proprietary? && Encodable(blocks[i])
    requires |message| < 0x1_0000
    ensures ParseNdef(Encode(blocks) + EncodeBlock(NdefMessage(message)) + rest, decode) == decode(message)
  {
    var tail := EncodeBlock(NdefMessage(message)) + rest;
    assert Encode(blocks) + EncodeBlock(NdefMessage(message)) + rest == Encode(blocks) + tail;
    SkipProprietaryBlocks(blocks, tail, decode);
    ScanNdefMessageBlock(message, rest, decode);
  }

  /** An NDEF Message block whose declared length runs past the end of the memory yields None. */
  lemma {:induction false} TruncatedNdefMessage(blocks: seq<Tlv>, declared: nat, partial: seq<byte>, decode: RecordDecoder)
    requires forall i :: 0 <= i < |blocks| ==> blocks[i].Proprietary? && Encodable(blocks[i])
    requires |partial| < declared < 0x1_0000
    ensures ParseNdef(Encode(blocks) + [NDEF_MESSAGE_TLV] + LengthField(declared) + partial, decode) == None
  {
    var lf := LengthField(declared);
    var tail := [NDEF_MESSAGE_TLV] + lf + partial;
    assert Encode(blocks) + [NDEF_MESSAGE_TLV] + lf + partial == Encode(blocks) + tail;
    SkipProprietaryBlocks(blocks, tail, decode);
    assert tail[1] == lf[0];
    if |lf| == 3 {
      assert tail[2] == lf[1] && tail[3] == lf[2];
    }
  }

  /**
   * A block of any other type (neither NULL, NDEF Message nor Terminator) whose declared length
   * runs past the end of the memory yields None.
   */
  lemma {:induction false} TruncatedProprietaryBlock(blocks: seq<Tlv>, t: byte, declared: nat, partial: seq<byte>, decode: RecordDecoder)
    requires forall i :: 0 <= i < |blocks| ==> blocks[i].Proprietary? && Encodable(blocks[i])
    requires t != NULL_TLV && t != NDEF_MESSAGE_TLV && t != TERMINATOR_TLV
    requires |partial| < declared < 0x1_0000
    ensures ParseNdef(Encode(blocks) + [t] + LengthField(declared) + partial, decode) == None
  {
    var lf := LengthField(declared);
    var tail := [t] + lf + partial;
    assert Encode(blocks) + [t] + lf + partial == Encode(blocks) + tail;
    SkipProprietaryBlocks(blocks, tail, decode);
    assert tail[0] == t && tail[1] == lf[0];
    if |lf| == 3 {
      assert tail[2] == lf[1] && tail[3] == lf[2];
    }
  }

  /** A Terminator block ends the scan with None, whatever follows it. */
  lemma {:induction false} TerminatorEndsScan(blocks: seq<Tlv>, rest: seq<byte>, decode: RecordDecoder)
    requires forall i :: 0 <= i < |blocks| ==> blocks[i].Proprietary? && Encodable(blocks[i])
    ensures ParseNdef(Encode(blocks) + [TERMINATOR_TLV] + rest, decode) == None
  {
    var tail := [TERMINATOR_TLV] + rest;
    assert Encode(blocks) + [TERMINATOR_TLV] + rest == Encode(blocks) + tail;
    SkipProprietaryBlocks(blocks, tail, decode);
  }

  /** Memory that ends inside a block header (type byte only, or a cut three-byte length) yields None. */
  lemma {:induction false} TruncatedHeader(blocks: seq<Tlv>, t: byte, cut: seq<byte>, decode: RecordDecoder)
    requires forall i :: 0 <= i < |blocks| ==> blocks[i].Proprietary? && Encodable(blocks[i])
    requires cut == [] || cut == [LONG_LENGTH] || (|cut| == 2 && cut[0] == LONG_LENGTH)
    ensures ParseNdef(Encode(blocks) + [t] + cut, decode) == None
  {
    var tail := [t] + cut;
    assert Encode(blocks) + [t] + cut == Encode(blocks) + tail;
    SkipProprietaryBlocks(blocks, tail, decode);
  }

  /**
   * The firmware's NULL block is two bytes long: a NULL type byte and a (length) byte other than
   * 0xFF are stepped over together, and no value bytes are skipped.
   */
  lemma {:induction false} NullBlockTakesLengthByte(n: byte, rest: seq<byte>, decode: RecordDecoder)
    requires n != LONG_LENGTH
    ensures ParseNdef([NULL_TLV, n] + rest, decode) == ParseNdef(rest, decode)
  {
    ScanShift([NULL_TLV, n], rest, 0, decode);
  }

  /**
   * Against the standard's one-byte NULL block: memory holding a NULL block and then an empty
   * NDEF Message block is not decoded, because the NDEF type byte is taken as the NULL block's
   * length (without the NULL block, `NdefMessageRoundTrip` gives `decode([])`).
   */
  lemma {:induction false} StandardNullBlockBeforeMessage(decode: RecordDecoder)
    ensures Encode([NullBlock, NdefMessage([])]) == [NULL_TLV, NDEF_MESSAGE_TLV, 0]
    ensures ParseNdef(Encode([NullBlock, NdefMessage([])]), decode) == None
  {
    var raw := Encode([NullBlock, NdefMessage([])]);
    assert raw == [NULL_TLV] + ([NDEF_MESSAGE_TLV] + [0] + []) + [];
    assert ScanFrom(raw, 2, decode) == None;
  }

  // ---------------------------------------------------------------------------------------
  // Reading the tag memory page by page

  /**
   * The reader's answer to `read(page)` on a given attempt: the bytes returned, or the empty
   * sequence when the read failed (the firmware treats None and an empty answer alike).
   */
  type PageReader = (int, nat) -> seq<byte>

  /** Number of four-page blocks requested: pages 4, 8, ..., 44. */
  const PAGE_BLOCKS: nat := 11
  /** Attempts per page before giving up. */
  const RETRIES: nat := 3

  function PageAddress(i: nat): int {
    0x04 + i * 4
  }

  /** Attempt `a` at reading `page` got no data. */
  predicate Failed(read: PageReader, page: int, a: nat) {
    read(page, a) == []
  }

  /** The retry loop for one page from attempt `attempt` on: attempts used and the data obtained. */
  function RetryFrom(read: PageReader, page: int, attempt: nat): (r: (nat, seq<byte>))
    requires attempt < RETRIES
    ensures attempt < r.0 <= RETRIES
    // the data is the answer to the last attempt made
    ensures r.1 == read(page, r.0 - 1)
    // every earlier attempt failed: the first success ends the loop
    ensures forall a :: attempt <= a < r.0 - 1 ==> Failed(read, page, a)
    // a failed page used up every attempt
    ensures r.1 == [] ==> r.0 == RETRIES
    decreases RETRIES - attempt
  {
    var data := read(page, attempt);
    if data != [] then (attempt + 1, data)
    else if attempt + 1 == RETRIES then (RETRIES, [])
    else RetryFrom(read, page, attempt + 1)
  }

  /** The bytes the retry loop finally obtains for `page`; empty when all attempts failed. */
  function PageData(read: PageReader, page: int): seq<byte> {
    RetryFrom(read, page, 0).1
  }

  /** A page is lost exactly when every one of its attempts fails. */
  lemma {:induction false} RetryFails(read: PageReader, page: int, attempt: nat)
    requires attempt < RETRIES
    ensures RetryFrom(read, page, attempt).1 == [] <==> forall a :: attempt <= a < RETRIES ==> read(page, a) == []
    decreases RETRIES - attempt
  {
    if read(page, attempt) == [] && attempt + 1 < RETRIES {
      RetryFails(read, page, attempt + 1);
    }
  }

  function Repeat(x: int, n: nat): (r: seq<int>)
    ensures |r| == n && forall k :: 0 <= k < n ==> r[k] == x
  {
    seq(n, _ => x)
  }

  /**
   * The buffer after handling page blocks `i`, `i + 1`, ... on top of `acc`: each page's data is
   * appended until a page is lost or the last page is done.
   */
  function BufferAfter(read: PageReader, i: nat, acc: seq<byte>): seq<byte>
    decreases PAGE_BLOCKS - i
  {
    if i >= PAGE_BLOCKS then acc
    else
      var data := PageData(read, PageAddress(i));
      if data == [] then acc else BufferAfter(read, i + 1, acc + data)
  }

  /** The page addresses requested from block `i` on, one entry per attempt, after those in `acc`. */
  function RequestsAfter(read: PageReader, i: nat, acc: seq<int>): seq<int>
    decreases PAGE_BLOCKS - i
  {
    if i >= PAGE_BLOCKS then acc
    else
      var acc' := acc + Repeat(PageAddress(i), RetryFrom(read, PageAddress(i), 0).0);
      if PageData(read, PageAddress(i)) == [] then acc' else RequestsAfter(read, i + 1, acc')
  }

  /** All the bytes read from the tag. */
  function Buffer(read: PageReader): seq<byte> {
    BufferAfter(read, 0, [])
  }

  /** All the page addresses sent to the reader, in order. */
  function Requests(read: PageReader): seq<int> {
    RequestsAfter(read, 0, [])
  }

  /** What the tag's memory decodes to: None when nothing could be read. */
  function TagContent(read: PageReader, decode: RecordDecoder): (r: Option<string>)
    // three failed attempts at page 4 mean no text
    ensures (forall a :: 0 <= a < RETRIES ==> read(4, a) == []) ==> r.None?
  {
    var buffer := Buffer(read);
    EmptyBufferIffFirstPageLost(read);
    if buffer == [] then None else ParseNdef(buffer, decode)
  }

  /** Any text found on a tag is the record decoder's result on a stretch of the pages read. */
  lemma {:induction false} TagContentIsDecodedSlice(read: PageReader, decode: RecordDecoder)
    requires TagContent(read, decode).Some?
    ensures exists i, j :: 0 <= i <= j <= |Buffer(read)| && decode(Buffer(read)[i..j]) == TagContent(read, decode)
  {
    ScanResultIsDecodedSlice(Buffer(read), 0, decode);
  }

  /** The retry loop of `read_ultralight_ndef` for one page: the data obtained and the attempts made. */
  method ReadPage(read: PageReader, page: int) returns (data: seq<byte>, attempts: nat)
    ensures (attempts, data) == RetryFrom(read, page, 0)
  {
    data := [];
    attempts := 0;
    while attempts < RETRIES
      invariant attempts <= RETRIES
      invariant data == []
      invariant attempts < RETRIES ==> RetryFrom(read, page, 0) == RetryFrom(read, page, attempts)
      invariant attempts == RETRIES ==> RetryFrom(read, page, 0) == (RETRIES, [])
      decreases RETRIES - attempts
    {
      data := read(page, attempts);
      attempts := attempts + 1;
      if data != [] {
        return;
      }
    }
  }

  /**
   * `read_ultralight_ndef`: requests pages 4, 8, ..., 44 in turn, retrying each up to three
   * times, and stops at the first page that cannot be read. `requests` is the sequence of page
   * addresses sent to the reader.
   */
  method ReadUltralightNdef(read: PageReader, decode: RecordDecoder) returns (text: Option<string>, requests: seq<int>)
    ensures requests == Requests(read)
    ensures text == TagContent(read, decode)
  {
    var allData: seq<byte> := [];
    requests := [];
    var i := 0;
    while i < PAGE_BLOCKS
      invariant i <= PAGE_BLOCKS
      invariant BufferAfter(read, i, allData) == Buffer(read)
      invariant RequestsAfter(read, i, requests) == Requests(read)
      decreases PAGE_BLOCKS - i
    {
      var pageAddr := PageAddress(i);
      var data, attempts := ReadPage(read, pageAddr);
      if data != [] {
        PageRead(read, i, allData, requests);
        requests := requests + Repeat(pageAddr, attempts);
        allData := allData + data;
      } else {
        // the page is lost: nothing more is read
        PageLost(read, i, allData, requests);
        requests := requests + Repeat(pageAddr, attempts);
        break;
      }
      i := i + 1;
    }
    assert allData == Buffer(read) && requests == Requests(read);
    if allData == [] {
      return None, requests;
    }
    text := ParseNdefMessage(allData, decode);
  }

  /** A page block that was read: its attempts are requested, its data appended, and reading goes on. */
  lemma {:induction false} PageRead(read: PageReader, i: nat, acc: seq<byte>, requested: seq<int>)
    requires i < PAGE_BLOCKS && PageData(read, PageAddress(i)) != []
    ensures var (attempts, data) := RetryFrom(read, PageAddress(i), 0);
      RequestsAfter(read, i, requested) == RequestsAfter(read, i + 1, requested + Repeat(PageAddress(i), attempts))
      && BufferAfter(read, i, acc) == BufferAfter(read, i + 1, acc + data)
  {
  }

  /** A lost page block: its attempts are the last requests, and the buffer stays as it was. */
  lemma {:induction false} PageLost(read: PageReader, i: nat, acc: seq<byte>, requested: seq<int>)
    requires i < PAGE_BLOCKS && PageData(read, PageAddress(i)) == []
    ensures RequestsAfter(read, i, requested) == requested + Repeat(PageAddress(i), RetryFrom(read, PageAddress(i), 0).0)
    ensures BufferAfter(read, i, acc) == acc
  {
  }

  /** `acc` is always a prefix of the buffer built on it. */
  lemma {:induction false} BufferExtends(read: PageReader, i: nat, acc: seq<byte>)
    ensures acc <= BufferAfter(read, i, acc)
    decreases PAGE_BLOCKS - i
  {
    if i < PAGE_BLOCKS {
      var data := PageData(read, PageAddress(i));
      if data != [] {
        BufferExtends(read, i + 1, acc + data);
      }
    }
  }

  /** Nothing is read, and the tag yields no text, exactly when all three attempts at page 4 fail. */
  lemma {:induction false} EmptyBufferIffFirstPageLost(read: PageReader)
    ensures Buffer(read) == [] <==> forall a :: 0 <= a < RETRIES ==> read(4, a) == []
  {
    RetryFails(read, 4, 0);
    var data := PageData(read, PageAddress(0));
    if data != [] {
      BufferExtends(read, 1, data);
    }
  }

  /** Two readers that answer alike for the attempts of block `i` obtain the same data for it. */
  lemma {:induction false} RetryAgrees(read: PageReader, read': PageReader, page: int, attempt: nat)
    requires attempt < RETRIES
    requires forall a :: attempt <= a < RETRIES ==> read(page, a) == read'(page, a)
    ensures RetryFrom(read, page, attempt) == RetryFrom(read', page, attempt)
    decreases RETRIES - attempt
  {
    if attempt + 1 < RETRIES {
      RetryAgrees(read, read', page, attempt + 1);
    }
  }

  /**
   * Reading stops at a lost page: once block `j` cannot be read, what later pages would answer
   * changes neither the buffer nor the requests.
   */
  lemma {:induction false} LostPageEndsRead(read: PageReader, read': PageReader, j: nat, i: nat, acc: seq<byte>, reqs: seq<int>)
    requires i <= j < PAGE_BLOCKS
    requires PageData(read, PageAddress(j)) == []
    requires forall k, a :: i <= k <= j && 0 <= a < RETRIES ==> read(PageAddress(k), a) == read'(PageAddress(k), a)
    ensures BufferAfter(read, i, acc) == BufferAfter(read', i, acc)
    ensures RequestsAfter(read, i, reqs) == RequestsAfter(read', i, reqs)
    decreases PAGE_BLOCKS - i
  {
    RetryAgrees(read, read', PageAddress(i), 0);
    var data := PageData(read, PageAddress(i));
    if data != [] {
      var attempts := RetryFrom(read, PageAddress(i), 0).0;
      LostPageEndsRead(read, read', j, i + 1, acc + data, reqs + Repeat(PageAddress(i), attempts));
    }
  }

  /** A page address the reader may request: 4, 8, ..., 44. */
  predicate IsRequestedPage(p: int) {
    exists i :: 0 <= i < PAGE_BLOCKS && p == PageAddress(i)
  }

  /**
   * The shape of a request trace: requested pages only, in ascending order, and never more than
   * three requests for one page (any four consecutive requests name at least two pages).
   */
  predicate RequestTrace(t: seq<int>) {
    && (forall k :: 0 <= k < |t| ==> IsRequestedPage(t[k]))
    && (forall k, l :: 0 <= k < l < |t| ==> t[k] <= t[l])
    && (forall k :: 3 <= k < |t| ==> t[k - 3] < t[k])
  }

  lemma {:induction false} AppendAttempts(t: seq<int>, i: nat, n: nat)
    requires RequestTrace(t) && i < PAGE_BLOCKS && n <= RETRIES
    requires forall k :: 0 <= k < |t| ==> t[k] < PageAddress(i)
    ensures RequestTrace(t + Repeat(PageAddress(i), n))
  {
    var r := t + Repeat(PageAddress(i), n);
    forall k | 0 <= k < |r|
      ensures IsRequestedPage(r[k])
    {
      if k >= |t| {
        assert r[k] == PageAddress(i);
      }
    }
    forall k | 3 <= k < |r|
      ensures r[k - 3] < r[k]
    {
      if k >= |t| {
        assert k - 3 < |t|;
      }
    }
  }

  lemma {:induction false} RequestsAfterShape(read: PageReader, i: nat, acc: seq<int>)
    requires RequestTrace(acc)
    requires forall k :: 0 <= k < |acc| ==> acc[k] < PageAddress(i)
    ensures RequestTrace(RequestsAfter(read, i, acc))
    decreases PAGE_BLOCKS - i
  {
    if i < PAGE_BLOCKS {
      var attempts := RetryFrom(read, PageAddress(i), 0).0;
      var acc' := acc + Repeat(PageAddress(i), attempts);
      AppendAttempts(acc, i, attempts);
      if PageData(read, PageAddress(i)) != [] {
        RequestsAfterShape(read, i + 1, acc');
      }
    }
  }

  /** Whatever the reader answers, the pages requested have the shape of `RequestTrace`. */
  lemma {:induction false} RequestsShape(read: PageReader)
    ensures RequestTrace(Requests(read))
    ensures 1 <= |Requests(read)| <= PAGE_BLOCKS * RETRIES
  {
    RequestsAfterShape(read, 0, []);
    RequestsLength(read, 0, []);
  }

  lemma {:induction false} RequestsLength(read: PageReader, i: nat, acc: seq<int>)
    requires i <= PAGE_BLOCKS
    ensures |acc| <= |RequestsAfter(read, i, acc)| <= |acc| + (PAGE_BLOCKS - i) * RETRIES
    ensures i < PAGE_BLOCKS ==> |acc| < |RequestsAfter(read, i, acc)|
    decreases PAGE_BLOCKS - i
  {
    if i < PAGE_BLOCKS {
      var attempts := RetryFrom(read, PageAddress(i), 0).0;
      var acc' := acc + Repeat(PageAddress(i), attempts);
      if PageData(read, PageAddress(i)) != [] {
        RequestsLength(read, i + 1, acc');
      }
    }
  }

  // ---------------------------------------------------------------------------------------
  // Reading one tag

  /**
   * One polling attempt of a reader: whether the REQIDL request, the anticollision step and
   * the selection of the tag returned OK, and how the selected tag answers page reads.
   */
  datatype TagSession = TagSession(requestOk: bool, anticollOk: bool, selectOk: bool, read: PageReader)

  /** The text `read_tag_text` returns for a session. */
  function TagText(session: TagSession, decode: RecordDecoder): (r: Option<string>)
    ensures r.Some? ==> Stripped(r.value)
    ensures r.Some? <==> session.requestOk && session.anticollOk && session.selectOk
                         && TagContent(session.read, decode).Some? && TagContent(session.read, decode).value != ""
    ensures r.Some? ==> r.value == Strip(TagContent(session.read, decode).value)
  {
    if !(session.requestOk && session.anticollOk && session.selectOk) then None
    else
      var content := TagContent(session.read, decode);
      if content.None? || content.value == "" then None else Some(Strip(content.value))
  }

  /**
   * `read_tag_text`: the three handshake steps, then the memory read; the text found is returned
   * stripped when it is not empty. `requests` are the page addresses sent to the reader.
   */
  method ReadTagText(session: TagSession, decode: RecordDecoder) returns (text: Option<string>, requests: seq<int>)
    ensures text == TagText(session, decode)
    ensures requests == if session.requestOk && session.anticollOk && session.selectOk then Requests(session.read) else []
  {
    requests := [];
    if !session.requestOk {
      return None, requests;
    }
    if !session.anticollOk {
      return None, requests;
    }
    if session.selectOk {
      var detected;
      detected, requests := ReadUltralightNdef(session.read, decode);
      if detected.Some? && detected.value != "" {
        return Some(Strip(detected.value)), requests;
      }
    }
    text := None;
  }
}
