# JD360 Audio Toolkit: recook byte logic

This project models the byte-level core of the toolkit's *recook* path, which
rebuilds a cooked audio container (`.wav.ckd`) from a template container and a
newly encoded XMA payload:

* **Payload extraction** (`get_xma2_payload`). If the encoder output starts with
  `RIFF`, the payload is found at the first `data` marker. It is the `S` bytes
  after the marker's little-endian 32-bit size field. Any other input is taken as
  a raw bitstream and returned whole.
* **Header patch** (`recook_ckd_header`). The big-endian `header_size` at
  `0x14..0x18` says how much of the template is header. The header is copied. The
  big-endian audio-size field 8 bytes after its first `data` marker is overwritten
  with the new payload's length. The result is the patched header followed by the
  payload.

`bytes.dfy` (module `Bytes`) holds the Python primitives the code relies on:
clamped slicing, `bytes.find`, `int.from_bytes` in both byte orders and
`int.to_bytes(4, "big")`. A little-endian encoder (`EncodeLE32`) is added as the
inverse of the little-endian decode on line 125, so that decode has a round trip. `jd360_tool.dfy` (modules `Results` and
`Jd360Tool`) holds the two operations. The header patch appears twice:
`RecookCkdHeader` is a method that follows the source, copying the header into a
fresh array and patching four bytes in place (`WriteBE32`); `RecookCkd` is the
pure sequence-update function that the method is proved equal to. The
properties are proved about `RecookCkd`.

Files are read and written by the caller. Both operations take bytes and return
bytes here. The file contents are parameters, and the write on line 168 is not
modelled. The values that `recook_ckd_header` prints (header size, chunk header
size, original and new audio size, and the mismatch warning) come back as fields
of the `Recooked` result.

Edge cases of the code that the model keeps:

* `recook_ckd_header` does not reject a `header_size` larger than the template
  (line 143). Python slicing truncates the header, and `RecookCkd` does the same.
  So the output length is `min(header_size, len(tmpl)) + len(payload)`.
* `header_size` is decoded from however many of the bytes `0x14..0x18` exist
  (line 140). A template shorter than `0x18` bytes gives a smaller number, or 0.

## Model

| member | source | states |
|---|---|---|
| Bytes.Slice | jd360_tool.py:120 | Python slicing with non-negative bounds: the result has the clamped length, each element comes from the same position of the input, and in-range bounds give the ordinary subsequence |
| Bytes.Find | jd360_tool.py:122 | `bytes.find`: returns -1 exactly when the pattern occurs nowhere; otherwise returns an index where the pattern occurs with no earlier occurrence |
| Bytes.FindFrom | jd360_tool.py:146 | the scan behind `find`: starting from a point with no occurrence before it, returns the first occurrence at or after that point, or -1 exactly when there is none |
| Bytes.FirstOccurrenceUnique | jd360_tool.py:146 | there is only one first occurrence of a pattern, so any first `data` marker is the one `find` returns |
| Bytes.DecodeBE | jd360_tool.py:140 | `int.from_bytes(_, "big")` on any number of bytes: the value is below 256^n for n bytes |
| Bytes.DecodeLE | jd360_tool.py:125 | `int.from_bytes(_, "little")` on any number of bytes: the value is below 256^n for n bytes |
| Bytes.EncodeBE32 | jd360_tool.py:162 | `n.to_bytes(4, "big")` for n below 2^32: four bytes that decode back to n |
| Bytes.EncodeLE32 | jd360_tool.py:125 | the 4-byte little-endian encoding, inverse of the decode on line 125: four bytes that decode back to n |
| Bytes.EncodeDecodeBE32 | jd360_tool.py:155 | every 4-byte big-endian field decodes to a value below 2^32 whose encoding is that same field |
| Bytes.EncodeDecodeLE32 | jd360_tool.py:125 | every 4-byte little-endian field decodes to a value below 2^32 whose encoding is that same field |
| Bytes.Pow256Monotone | jd360_tool.py:140 | a shorter field has a smaller bound, so a truncated field still decodes below 2^32 |
| Jd360Tool.IsRiff | jd360_tool.py:120 | `data[:4] == b"RIFF"`: true exactly when the input has at least four bytes and they are `RIFF` |
| Jd360Tool.GetXma2Payload | jd360_tool.py:118-134 | non-RIFF input is returned whole and unchanged; RIFF input fails with "data chunk not found" exactly when no `data` marker occurs; a payload taken from a RIFF file is shorter than 2^32 bytes |
| Jd360Tool.RiffPayload | jd360_tool.py:122-130 | for RIFF input with first marker `k`: success exactly when `k+8` and `k+8+S` both fit in the file (S = little-endian u32 at `k+4`); a truncated size field always fails with "past end of file", and success returns exactly `data[k+8 : k+8+S]`, S bytes long |
| Jd360Tool.HeaderSize | jd360_tool.py:140 | the header size read at `0x14..0x18` is below 2^32, even when the template is too short for the whole field |
| Jd360Tool.Header | jd360_tool.py:143 | the header is the template's prefix of length `min(header_size, len(tmpl))`; an oversized `header_size` is not rejected |
| Jd360Tool.TagFits | jd360_tool.py:146-147 | the header's `data` marker passes the check: true for `k` exactly when `header.find(b"data")` returns `k` and `k + 12 <= len(header)` |
| Jd360Tool.PatchAudioSize | jd360_tool.py:162 | the slice assignment as a sequence update: length unchanged, every byte outside `[off+8, off+12)` unchanged, and those four bytes are the big-endian encoding of n and decode to n |
| Jd360Tool.Assemble | jd360_tool.py:150-164 | once the marker is found at `off` with room: the output has length `min(header_size, len(tmpl)) + len(payload)` and ends with the payload; every header byte outside `[off+8, off+12)` equals the template's; those four bytes are the big-endian encoding of `len(payload)` and decode back to it; the reported header size, chunk header size and original audio size are the template's fields |
| Jd360Tool.RecookCkd | jd360_tool.py:136-165 | fails with "'data' tag not found" exactly when the header has no first `data` marker with 12 bytes of room; otherwise succeeds at that marker with the container described by `Assemble` |
| Jd360Tool.RecookSucceedsWhenTagFits | jd360_tool.py:146-153 | a fitting first marker always gives success at that marker, whatever the chunk header-size field holds; a mismatch only sets the warning |
| Jd360Tool.WriteBE32 | jd360_tool.py:162 | in-place overwrite of four bytes of the `bytearray` with the big-endian encoding; the bytes before and after keep their old values |
| Jd360Tool.RecookCkdHeader | jd360_tool.py:136-165 | copying into a fresh array, patching in place and concatenating gives exactly `RecookCkd`'s result, including the error case; the template is an immutable value and is never changed |
| Jd360Tool.RecookRoundTrip | jd360_tool.py:143-164 | when the template's audio-size field already equals the length of what follows its header, recooking the template with that tail reproduces the template byte for byte |
| Jd360Tool.PatchWithOwnSize | jd360_tool.py:155-162 | writing back the audio size a header already holds leaves the header unchanged |
| Jd360Tool.RiffExample | jd360_tool.py:122-130 | a RIFF file with marker at 36 and size bytes `64 00 00 00` yields the 100 bytes at 44..144 |
| Jd360Tool.CkdExample | jd360_tool.py:140-164 | a 1044-byte template with header size 0x2C, marker at 0x20 and audio size 1000, recooked with 1234 bytes, gives 1278 bytes with audio-size field `00 00 04 D2` and no mismatch warning |

## Left out

- File reads (lines 119 and 137) and the write through `safe_write_bytes` (line 168): the bytes are parameters and the result is returned.
- `safe_write_bytes` and `get_output_dir`: filesystem permission changes, deletion and writing, with no atomicity to reason about.
- `ask_path`, `main`, `uncook_ckd`, `recook_ckd` and their prompts and menu: interactive console I/O.
- `find_exe`, `run_xma2encode` and the `vgmstream-cli` / `xma2encode` processes: external executables. The candidate-file probing in `run_xma2encode` depends on filesystem state.
- The `print` diagnostics: the printed values are returned as fields of `Recooked` instead.
- RecookCkd: requires the payload to be shorter than 2^32 bytes. For longer payloads, Python's `to_bytes(4, "big")` on line 162 raises `OverflowError`, and that error path is not modelled. `RecookCkdHeader` and `PatchAudioSize` carry the same precondition.
