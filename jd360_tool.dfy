/** The result of an operation that can fail with a `RuntimeError`. */
module Results {
  datatype Result<T, E> = Ok(value: T) | Err(error: E)
}

/** The byte-level core of the JD360 audio toolkit's recook path: extracting the
    encoded payload from the encoder's output, and patching a template `.wav.ckd`
    header with the new payload's size. Files are read and written by the caller;
    here both operations work on the bytes. */
module Jd360Tool {
  import opened Bytes
  import opened Results

  /** ASCII "RIFF" */
  const RIFF_TAG: seq<byte> := [0x52, 0x49, 0x46, 0x46]
  /** ASCII "data" */
  const DATA_TAG: seq<byte> := [0x64, 0x61, 0x74, 0x61]

  /** The `RuntimeError`s the two operations raise. */
  datatype Failure =
    | RiffDataChunkNotFound   // "'data' chunk not found in XMA2 WAV"
    | RiffDataChunkPastEnd    // "XMA2 WAV 'data' size goes past end of file."
    | CkdDataTagNotFound      // "'data' tag not found in CKD header."

  // ---------- Payload extraction ----------

  /** `data[:4] == b"RIFF"` */
  predicate IsRiff(data: seq<byte>)
    ensures IsRiff(data) <==> |data| >= 4 && data[..4] == RIFF_TAG
  {
    Slice(data, 0, 4) == RIFF_TAG
  }

  /** The payload of an encoded file: the `data` chunk of a RIFF file, or the
      whole input when it is a raw bitstream. */
  function GetXma2Payload(data: seq<byte>): (r: Result<seq<byte>, Failure>)
    ensures !IsRiff(data) ==> r == Ok(data)
    ensures IsRiff(data) ==> (r == Err(RiffDataChunkNotFound) <==> Absent(data, DATA_TAG))
    ensures IsRiff(data) && r.Ok? ==> |r.value| < U32_LIMIT
  {
    if IsRiff(data) then
      var off := Find(data, DATA_TAG);
      if off == -1 then Err(RiffDataChunkNotFound)
      else
        var size := DecodeLE(Slice(data, off + 4, off + 8));
        var payloadOff := off + 8;
        if payloadOff + size > |data| then Err(RiffDataChunkPastEnd)
        else
          Pow256Four();
          Ok(data[payloadOff..payloadOff + size])
    else
      Ok(data)
  }

  /** A RIFF file whose first `data` marker is at `k`: extraction succeeds exactly
      when the 4-byte size field `S` after the marker and the `S` bytes after that
      lie inside the file, and then returns those `S` bytes. A size field cut short
      by the end of the file always fails. */
  lemma RiffPayload(data: seq<byte>, k: nat)
    requires IsRiff(data) && IsFirstOccurrence(data, DATA_TAG, k)
    ensures var r := GetXma2Payload(data);
      && (r.Ok? <==> k + 8 <= |data| && k + 8 + DecodeLE(data[k + 4..k + 8]) <= |data|)
      && (r.Err? ==> r.error == RiffDataChunkPastEnd)
      && (r.Ok? ==> var size := DecodeLE(data[k + 4..k + 8]);
                    |r.value| == size && r.value == data[k + 8..k + 8 + size])
  {
  }

  // ---------- Header patch ----------

  /** `int.from_bytes(tmpl[0x14:0x18], "big")`: fewer than four bytes are decoded
      when the template is shorter than 0x18 bytes. */
  function HeaderSize(tmpl: seq<byte>): (n: nat)
    ensures n < U32_LIMIT
  {
    var field := Slice(tmpl, 0x14, 0x18);
    Pow256Monotone(|field|, 4);
    Pow256Four();
    DecodeBE(field)
  }

  /** `tmpl[:header_size]`, silently cut short when `header_size` exceeds the template. */
  function Header(tmpl: seq<byte>): (h: seq<byte>)
    ensures |h| == Min(HeaderSize(tmpl), |tmpl|)
    ensures h == tmpl[..|h|]
  {
    Slice(tmpl, 0, HeaderSize(tmpl))
  }

  /** `k` is the first `data` marker of `header` and the two size fields after it fit. */
  predicate TagFits(header: seq<byte>, k: nat)
    // exactly when `header.find(b"data")` returns `k` and the failure test does not fire
    ensures TagFits(header, k) <==> Find(header, DATA_TAG) == k && k + 12 <= |header|
  {
    IsFirstOccurrence(header, DATA_TAG, k) && k + 12 <= |header|
  }

  /** The new container together with the values the source reports on the console. */
  datatype Recooked = Recooked(
    container: seq<byte>,
    headerSize: nat,        // read at 0x14
    dataTagOffset: nat,     // first "data" in the header
    chunkHeaderSize: nat,   // big-endian u32 after the marker
    origAudioSize: nat,     // big-endian u32 after that, before the patch
    newAudioSize: nat)      // the length of the new payload
  {
    /** The console warning "header_size mismatch, continuing anyway". */
    predicate HeaderSizeMismatch()
    {
      chunkHeaderSize != headerSize
    }
  }

  /** `header` with the four bytes at `off + 8` replaced by the big-endian `n`:
      the sequence counterpart of the in-place slice assignment. */
  function PatchAudioSize(header: seq<byte>, off: nat, n: nat): (h: seq<byte>)
    requires off + 12 <= |header| && n < U32_LIMIT
    ensures |h| == |header|
    ensures forall i :: 0 <= i < |h| && !(off + 8 <= i < off + 12) ==> h[i] == header[i]
    ensures h[off + 8..off + 12] == EncodeBE32(n) && DecodeBE(h[off + 8..off + 12]) == n
  {
    header[..off + 8] + EncodeBE32(n) + header[off + 12..]
  }

  /** The container and the reported sizes once the header's `data` marker has
      been found at `off` with room for both size fields. */
  function Assemble(tmpl: seq<byte>, payload: seq<byte>, off: nat): (v: Recooked)
    requires |payload| < U32_LIMIT && off + 12 <= |Header(tmpl)|
    ensures v.dataTagOffset == off
    // the shape of the new container
    ensures |v.container| == Min(HeaderSize(tmpl), |tmpl|) + |payload|
    ensures v.container[|Header(tmpl)|..] == payload
    // only the four bytes of the audio-size field differ from the template
    ensures forall i :: 0 <= i < |Header(tmpl)| && !(off + 8 <= i < off + 12) ==> v.container[i] == tmpl[i]
    ensures v.container[off + 8..off + 12] == EncodeBE32(|payload|)
    ensures DecodeBE(v.container[off + 8..off + 12]) == |payload|
    // what is reported: the fields as the template has them
    ensures v.headerSize == HeaderSize(tmpl) && v.newAudioSize == |payload|
    ensures v.chunkHeaderSize == DecodeBE(tmpl[off + 4..off + 8])
    ensures v.origAudioSize == DecodeBE(tmpl[off + 8..off + 12])
  {
    var header := Header(tmpl);
    assert header[off + 4..off + 8] == tmpl[off + 4..off + 8];
    assert header[off + 8..off + 12] == tmpl[off + 8..off + 12];
    var patched := PatchAudioSize(header, off, |payload|);
    var c := patched + payload;
    assert c[off + 8..off + 12] == patched[off + 8..off + 12];
    Recooked(c, HeaderSize(tmpl), off,
             DecodeBE(header[off + 4..off + 8]), DecodeBE(header[off + 8..off + 12]), |payload|)
  }

  /** Rebuild a container from the template `tmpl` and a new payload: the
      template's header with the audio-size field after its `data` marker
      replaced by the payload's length, followed by the payload. It fails
      exactly when the header has no first `data` marker with room after it. */
  function RecookCkd(tmpl: seq<byte>, payload: seq<byte>): (r: Result<Recooked, Failure>)
    requires |payload| < U32_LIMIT
    ensures r.Err? ==> r.error == CkdDataTagNotFound && forall k: nat :: !TagFits(Header(tmpl), k)
    ensures r.Ok? ==>
      TagFits(Header(tmpl), r.value.dataTagOffset) && r.value == Assemble(tmpl, payload, r.value.dataTagOffset)
  {
    var header := Header(tmpl);
    var off := Find(header, DATA_TAG);
    if off == -1 || off + 12 > |header| then
      assert forall k: nat :: !TagFits(header, k) by {
        forall k: nat ensures !TagFits(header, k) {
          if off >= 0 && IsFirstOccurrence(header, DATA_TAG, k) {
            FirstOccurrenceUnique(header, DATA_TAG, k, off);
          }
        }
      }
      Err(CkdDataTagNotFound)
    else
      Ok(Assemble(tmpl, payload, off))
  }

  /** When the header's first `data` marker is at `k` with room for both size
      fields, the patch succeeds whatever the chunk's header-size field holds; a
      mismatch with `header_size` is only reported. */
  lemma RecookSucceedsWhenTagFits(tmpl: seq<byte>, payload: seq<byte>, k: nat)
    requires |payload| < U32_LIMIT && TagFits(Header(tmpl), k)
    ensures var r := RecookCkd(tmpl, payload);
      && r.Ok? && r.value.dataTagOffset == k
      && (r.value.HeaderSizeMismatch() <==> DecodeBE(tmpl[k + 4..k + 8]) != HeaderSize(tmpl))
  {
  }

  /** `header[at:at+4] = n.to_bytes(4, "big")` on a `bytearray`, in place. */
  method WriteBE32(buf: array<byte>, at: nat, n: nat)
    requires at + 4 <= buf.Length && n < U32_LIMIT
    modifies buf
    ensures buf[..] == old(buf[..at]) + EncodeBE32(n) + old(buf[at + 4..])
  {
    var e := EncodeBE32(n);
    buf[at], buf[at + 1], buf[at + 2], buf[at + 3] := e[0], e[1], e[2], e[3];
  }

  /** `recook_ckd_header` up to the write of the result: copies the header into a
      fresh `bytearray`, patches it in place and appends the payload. */
  method RecookCkdHeader(tmpl: seq<byte>, payload: seq<byte>) returns (r: Result<Recooked, Failure>)
    requires |payload| < U32_LIMIT
    ensures r == RecookCkd(tmpl, payload)
  {
    var headerSize := DecodeBE(Slice(tmpl, 0x14, 0x18));
    var len := Min(headerSize, |tmpl|);
    var header := new byte[len](i requires 0 <= i < len => tmpl[i]);
    assert header[..] == Header(tmpl);

    var dataTagOff := Find(header[..], DATA_TAG);
    if dataTagOff == -1 || dataTagOff + 12 > header.Length {
      return Err(CkdDataTagNotFound);
    }

    var headerSizeField := DecodeBE(header[dataTagOff + 4..dataTagOff + 8]);
    var origAudioSize := DecodeBE(header[dataTagOff + 8..dataTagOff + 12]);
    var newAudioSize := |payload|;

    WriteBE32(header, dataTagOff + 8, newAudioSize);

    r := Ok(Recooked(header[..] + payload, headerSize, dataTagOff,
                     headerSizeField, origAudioSize, newAudioSize));
  }

  /** Patching a template with its own payload, when its audio-size field already
      holds that payload's length, gives back the template byte for byte. */
  lemma RecookRoundTrip(tmpl: seq<byte>, k: nat)
    requires TagFits(Header(tmpl), k)
    requires DecodeBE(tmpl[k + 8..k + 12]) == |tmpl| - |Header(tmpl)|
    ensures |tmpl[|Header(tmpl)|..]| < U32_LIMIT
    ensures var r := RecookCkd(tmpl, tmpl[|Header(tmpl)|..]);
      r.Ok? && r.value.container == tmpl && r.value.origAudioSize == r.value.newAudioSize
  {
    var header := Header(tmpl);
    var payload := tmpl[|header|..];
    assert tmpl[k + 8..k + 12] == header[k + 8..k + 12];
    PatchWithOwnSize(header, k);
    RecookSucceedsWhenTagFits(tmpl, payload, k);
    assert Assemble(tmpl, payload, k).container == header + payload;
    SplitJoin(tmpl, |header|);
  }

  /** Writing back the size a header already holds leaves the header as it was. */
  lemma PatchWithOwnSize(header: seq<byte>, off: nat)
    requires off + 12 <= |header|
    ensures DecodeBE(header[off + 8..off + 12]) < U32_LIMIT
    ensures PatchAudioSize(header, off, DecodeBE(header[off + 8..off + 12])) == header
  {
    var field := header[off + 8..off + 12];
    EncodeDecodeBE32(field);
    var patched := PatchAudioSize(header, off, DecodeBE(field));
    forall i | 0 <= i < |header| ensures patched[i] == header[i] {
      if off + 8 <= i < off + 12 {
        assert patched[i] == patched[off + 8..off + 12][i - (off + 8)];
      }
    }
  }

  // ---------- Worked examples ----------

  /** A RIFF file whose first `data` marker is at 36 with size bytes `64 00 00 00`
      yields the 100 bytes at offsets 44..144. */
  lemma RiffExample(data: seq<byte>)
    requires |data| >= 144 && data[..4] == RIFF_TAG
    requires data[36..40] == DATA_TAG && forall j: nat :: j < 36 ==> !OccursAt(data, DATA_TAG, j)
    requires data[40..44] == [0x64, 0x00, 0x00, 0x00]
    ensures GetXma2Payload(data) == Ok(data[44..144])
  {
    DecodeLE4(data[40..44]);
    RiffPayload(data, 36);
  }

  /** The header of the example template: 44 bytes, first `data` marker at 0x20. */
  lemma CkdExampleHeader(tmpl: seq<byte>)
    requires |tmpl| == 44 + 1000
    requires tmpl[0x14..0x18] == [0x00, 0x00, 0x00, 0x2C]
    requires tmpl[0x20..0x24] == DATA_TAG && forall j: nat :: j < 0x20 ==> !OccursAt(tmpl, DATA_TAG, j)
    ensures HeaderSize(tmpl) == 0x2C && Header(tmpl) == tmpl[..0x2C]
    ensures TagFits(Header(tmpl), 0x20)
  {
    DecodeBE4(tmpl[0x14..0x18]);
    var header := Header(tmpl);
    forall j: nat | j < 0x20 ensures !OccursAt(header, DATA_TAG, j) {
      assert !OccursAt(tmpl, DATA_TAG, j);
      assert header[j..j + 4] == tmpl[j..j + 4];
    }
    assert header[0x20..0x24] == DATA_TAG;
  }

  /** A template with `header_size` 0x2C, its `data` marker at 0x20 holding chunk
      size 44 and audio size 1000, recooked with a 1234-byte payload: the result is
      1278 bytes long and its audio-size field reads `00 00 04 D2`. */
  lemma CkdExample(tmpl: seq<byte>, payload: seq<byte>)
    requires |tmpl| == 44 + 1000 && |payload| == 1234
    requires tmpl[0x14..0x18] == [0x00, 0x00, 0x00, 0x2C]
    requires tmpl[0x20..0x24] == DATA_TAG && forall j: nat :: j < 0x20 ==> !OccursAt(tmpl, DATA_TAG, j)
    requires tmpl[0x24..0x28] == [0x00, 0x00, 0x00, 0x2C]
    requires tmpl[0x28..0x2C] == [0x00, 0x00, 0x03, 0xE8]
    ensures var r := RecookCkd(tmpl, payload);
      && r.Ok? && |r.value.container| == 1278
      && r.value.container[0x28..0x2C] == [0x00, 0x00, 0x04, 0xD2]
      && r.value.origAudioSize == 1000 && !r.value.HeaderSizeMismatch()
  {
    CkdExampleHeader(tmpl);
    DecodeBE4(tmpl[0x24..0x28]);
    DecodeBE4(tmpl[0x28..0x2C]);
    RecookSucceedsWhenTagFits(tmpl, payload, 0x20);
    WordDigits(1234, 0x00, 0x00, 0x04, 0xD2);
  }
}
