/**
 * The ICO container encoder `PngIcoConverter.convertAsync` of src/script/index.js.
 *
 * It writes a 6-byte ICONDIR header, one 16-byte ICONDIRENTRY per input and
 * then the PNG payloads, in input order, into a zero-filled Uint8Array.
 * The browser image decode that yields each payload's natural width and
 * height is replaced by a value supplied with each input (`decoded`):
 * `None` stands for the decoder's `onerror`, which rejects with INVALID_IMAGE.
 */
module IcoEncoder {
  import opened Wrappers
  import opened Bytes

  const MaxSize: nat := 256
  const MaxFiles: nat := 65536
  const FileHeaderSize: nat := 6
  const ImageHeaderSize: nat := 16

  /** An input's `png` field: a Blob (measured by `size`) or an ArrayBuffer (by `byteLength`). */
  datatype Png = Blob(data: seq<Byte>) | ArrayBuffer(data: seq<Byte>)

  /** `naturalWidth` and `naturalHeight` of the decoded image. */
  datatype Dimensions = Dimensions(naturalWidth: nat, naturalHeight: nat)

  /**
   * One element of `inputs`: the payload, the optional `bpp` hint, the optional
   * `ignoreSize` flag (absent is false) and what decoding the payload reports.
   */
  datatype IcoInput = IcoInput(png: Png, bpp: Option<int>, ignoreSize: bool, decoded: Option<Dimensions>)

  /** The three errors the encoder throws or rejects with. */
  datatype IcoError = TooManyFiles | InvalidImage | InvalidSize

  /** Number of bytes of an input's payload (`blob.size`). */
  function PayloadSize(input: IcoInput): nat
  {
    |input.png.data|
  }

  /** Sum of the payload sizes, accumulated from the front. */
  function TotalSize(inputs: seq<IcoInput>): nat
  {
    if |inputs| == 0 then 0
    else TotalSize(inputs[..|inputs| - 1]) + PayloadSize(inputs[|inputs| - 1])
  }

  /** `sumInputLen`: adds up the Blob sizes and ArrayBuffer byte lengths. */
  method SumInputLen(inputs: seq<IcoInput>) returns (total: nat)
    ensures total == TotalSize(inputs)
  {
    total := 0;
    for k := 0 to |inputs|
      invariant total == TotalSize(inputs[..k])
    {
      assert inputs[..k + 1][..k] == inputs[..k];
      match inputs[k].png
      case Blob(bytes) =>
        total := total + |bytes|;
      case ArrayBuffer(bytes) =>
        total := total + |bytes|;
    }
    assert inputs[..|inputs|] == inputs;
  }

  /** The error the loop body raises for one input, if any: decode first, then the size check. */
  function CheckInput(input: IcoInput): Option<IcoError>
  {
    match input.decoded
    case None => Some(InvalidImage)
    case Some(d) =>
      if !input.ignoreSize && (d.naturalWidth > MaxSize || d.naturalHeight > MaxSize)
      then Some(InvalidSize)
      else None
  }

  /** The error of the first input, in input order, that raises one. */
  function FirstError(inputs: seq<IcoInput>): Option<IcoError>
  {
    if |inputs| == 0 then None
    else
      var earlier := FirstError(inputs[..|inputs| - 1]);
      if earlier.Some? then earlier else CheckInput(inputs[|inputs| - 1])
  }

  /** Size of the header and the directory for `n` images (`headersLen`). */
  function HeadersLen(n: nat): nat
  {
    FileHeaderSize + ImageHeaderSize * n
  }

  /** The ICONDIR header: reserved 0, type 1 (icon), then `to2Bytes(inLen)`. */
  function HeaderValues(n: nat): seq<int>
  {
    [0, 0, 1, 0] + To2Bytes(n)
  }

  /** The value written for a width or height: `w > MaxSize ? 0 : w`. */
  function DimensionValue(v: nat): nat
  {
    if v > MaxSize then 0 else v
  }

  /** The byte a width or height ends up as once the Uint8Array has stored it. */
  function StoredDimension(v: nat): (b: Byte)
    ensures v < 256 ==> b == v
    ensures v >= 256 ==> b == 0
  {
    ToUint8(DimensionValue(v))
  }

  /** `input.bpp ? to2Bytes(input.bpp) : [0, 0]`: an absent or zero hint writes zeros. */
  function BppValues(bpp: Option<int>): seq<int>
  {
    if bpp.Some? && bpp.value != 0 then To2Bytes(bpp.value) else [0, 0]
  }

  /** The 16 values of one ICONDIRENTRY, before the Uint8Array stores them. */
  function EntryValues(input: IcoInput, w: nat, h: nat, imgPos: int): (vs: seq<int>)
    ensures |vs| == ImageHeaderSize
  {
    [DimensionValue(w), DimensionValue(h), 0, 0, 0, 0]
      + BppValues(input.bpp) + To4Bytes(PayloadSize(input)) + To4Bytes(imgPos)
  }

  /**
   * The decoded size of an input. Only accepted inputs reach the directory and
   * every one of them decoded; the 0 x 0 fallback keeps the directory total.
   */
  function DecodedSize(input: IcoInput): Dimensions
  {
    match input.decoded
    case Some(d) => d
    case None => Dimensions(0, 0)
  }

  /** The stored directory entry of an input whose payload starts at `imgPos`. */
  function EntryBytes(input: IcoInput, imgPos: int): (bs: seq<Byte>)
    ensures |bs| == ImageHeaderSize
  {
    Uint8s(EntryValues(input, DecodedSize(input).naturalWidth, DecodedSize(input).naturalHeight, imgPos))
  }

  /** The directory of accepted inputs whose payloads start at `base`, one after the other. */
  function Directory(inputs: seq<IcoInput>, base: int): (bs: seq<Byte>)
    ensures |bs| == ImageHeaderSize * |inputs|
  {
    if |inputs| == 0 then []
    else
      var prefix := inputs[..|inputs| - 1];
      Directory(prefix, base) + EntryBytes(inputs[|inputs| - 1], base + TotalSize(prefix))
  }

  /** The payloads, concatenated in input order. */
  function Payloads(inputs: seq<IcoInput>): (bs: seq<Byte>)
    ensures |bs| == TotalSize(inputs)
  {
    if |inputs| == 0 then []
    else Payloads(inputs[..|inputs| - 1]) + inputs[|inputs| - 1].png.data
  }

  /** Where the payload of input `i` starts: after the directory and the earlier payloads. */
  function Offset(inputs: seq<IcoInput>, i: nat): nat
    requires i <= |inputs|
  {
    HeadersLen(|inputs|) + TotalSize(inputs[..i])
  }

  /** What `convertAsync(inputs)` resolves to, or the error it rejects with. */
  function Encode(inputs: seq<IcoInput>): (r: Result<seq<Byte>, IcoError>)
    ensures |inputs| > MaxFiles ==> r == Failure(TooManyFiles)
    ensures r.Success? <==>
              |inputs| <= MaxFiles && forall j :: 0 <= j < |inputs| ==> CheckInput(inputs[j]).None?
    ensures r.Success? ==> |r.value| == HeadersLen(|inputs|) + TotalSize(inputs)
  {
    FirstErrorNone(inputs);
    if |inputs| > MaxFiles then Failure(TooManyFiles)
    else if FirstError(inputs).Some? then Failure(FirstError(inputs).value)
    else
      Success(Uint8s(HeaderValues(|inputs|)) + Directory(inputs, HeadersLen(|inputs|)) + Payloads(inputs))
  }

  /** A run of `n` zero bytes, as in a freshly allocated Uint8Array. */
  function Zeros(n: nat): (z: seq<Byte>)
    ensures |z| == n
    ensures forall k :: 0 <= k < n ==> z[k] == 0
  {
    seq(n, _ => 0)
  }

  /** `s` with `v` written over it from position `pos` on. */
  function Splice(s: seq<Byte>, pos: nat, v: seq<Byte>): (r: seq<Byte>)
    requires pos + |v| <= |s|
    ensures |r| == |s|
  {
    s[..pos] + v + s[pos + |v|..]
  }

  /** `arr.set(values, offset)` on a Uint8Array: each value is stored through ToUint8. */
  method Set(arr: array<Byte>, values: seq<int>, offset: nat)
    requires offset + |values| <= arr.Length
    modifies arr
    ensures arr[..] == Splice(old(arr[..]), offset, Uint8s(values))
  {
    for k := 0 to |values|
      invariant forall m :: 0 <= m < arr.Length && !(offset <= m < offset + k) ==> arr[m] == old(arr[m])
      invariant forall m :: 0 <= m < k ==> arr[offset + m] == ToUint8(values[m])
    {
      arr[offset + k] := ToUint8(values[k]);
    }
    assert arr[..] == Splice(old(arr[..]), offset, Uint8s(values));
  }

  /** `convertAsync`: the buffer is zero-filled, then header, entries and payloads are set. */
  method ConvertAsync(inputs: seq<IcoInput>) returns (r: Result<seq<Byte>, IcoError>)
    ensures r == Encode(inputs)
  {
    var inLen := |inputs|;
    if inLen > MaxFiles {
      return Failure(TooManyFiles);
    }
    var headersLen := HeadersLen(inLen);
    var payloadLen := SumInputLen(inputs);
    var arr := new Byte[headersLen + payloadLen](_ => 0);
    assert arr[..] == Zeros(headersLen + payloadLen);
    Set(arr, [0, 0, 1, 0] + To2Bytes(inLen), 0);
    WriteHeader(Uint8s(HeaderValues(inLen)), ImageHeaderSize * inLen, payloadLen);
    var error := WriteImages(inputs, arr, payloadLen, Uint8s(HeaderValues(inLen)));
    if error.Some? {
      return Failure(error.value);
    }
    EncodeAccepted(inputs);
    return Success(arr[..]);
  }

  /**
   * The loop of `convertAsync` over the inputs: each accepted input gets its
   * entry and its payload written; the first rejected one ends the loop with its error.
   */
  method WriteImages(inputs: seq<IcoInput>, arr: array<Byte>, payloadLen: nat, ghost header: seq<Byte>)
    returns (error: Option<IcoError>)
    requires |inputs| <= MaxFiles && payloadLen == TotalSize(inputs)
    requires header == Uint8s(HeaderValues(|inputs|))
    requires arr[..] == Layout(header, [], ImageHeaderSize * |inputs|, [], payloadLen)
    modifies arr
    ensures error == FirstError(inputs)
    ensures error.None? ==> arr[..] == Uint8s(HeaderValues(|inputs|)) + Directory(inputs, HeadersLen(|inputs|)) + Payloads(inputs)
  {
    var inLen := |inputs|;
    var headersLen := HeadersLen(inLen);
    ghost var dir, pay := [], [];
    assert inputs[..0] == [];
    var imgPos := headersLen;
    for i := 0 to inLen
      invariant FirstError(inputs[..i]).None?
      invariant dir == Directory(inputs[..i], headersLen)
      invariant pay == Payloads(inputs[..i])
      invariant |pay| <= payloadLen
      invariant imgPos == headersLen + |pay|
      invariant arr[..] == Layout(header, dir, ImageHeaderSize * (inLen - i), pay, payloadLen - |pay|)
    {
      var failure;
      ghost var entry;
      failure, entry := WriteInput(inputs, i, arr, imgPos, payloadLen, header, dir, pay);
      if failure.Some? {
        return failure;
      }
      dir, pay := dir + entry, pay + inputs[i].png.data;
      imgPos := imgPos + |inputs[i].png.data|;
    }
    LayoutComplete(inputs, header, dir, pay, payloadLen);
    return None;
  }

  /**
   * One pass of the loop body for input `i`: the decode and size checks, then
   * the entry is set at `currPos` and the payload at `imgPos`.
   */
  method WriteInput(inputs: seq<IcoInput>, i: nat, arr: array<Byte>, imgPos: nat, payloadLen: nat,
                    ghost header: seq<Byte>, ghost dir: seq<Byte>, ghost pay: seq<Byte>)
    returns (error: Option<IcoError>, ghost entry: seq<Byte>)
    requires i < |inputs| && payloadLen == TotalSize(inputs) && FirstError(inputs[..i]).None?
    requires dir == Directory(inputs[..i], HeadersLen(|inputs|)) && pay == Payloads(inputs[..i])
    requires |header| == FileHeaderSize && |pay| <= payloadLen && imgPos == HeadersLen(|inputs|) + |pay|
    requires arr[..] == Layout(header, dir, ImageHeaderSize * (|inputs| - i), pay, payloadLen - |pay|)
    modifies arr
    ensures error.Some? ==> error == FirstError(inputs)
    ensures error.None? ==> FirstError(inputs[..i + 1]).None?
    ensures error.None? ==> dir + entry == Directory(inputs[..i + 1], HeadersLen(|inputs|))
    ensures error.None? ==> pay + inputs[i].png.data == Payloads(inputs[..i + 1])
    ensures error.None? ==> |pay + inputs[i].png.data| <= payloadLen
    ensures error.None? ==> arr[..] == Layout(header, dir + entry, ImageHeaderSize * (|inputs| - (i + 1)),
                                              pay + inputs[i].png.data, payloadLen - |pay + inputs[i].png.data|)
  {
    var currPos := FileHeaderSize + ImageHeaderSize * i;
    var input := inputs[i];
    if input.decoded.None? {
      RejectAt(inputs, i);
      return Some(InvalidImage), [];
    }
    var w := input.decoded.value.naturalWidth;
    var h := input.decoded.value.naturalHeight;
    if !input.ignoreSize && (w > MaxSize || h > MaxSize) {
      RejectAt(inputs, i);
      return Some(InvalidSize), [];
    }
    entry := Uint8s(EntryValues(input, w, h, imgPos));
    assert entry == EntryBytes(input, imgPos);
    FirstErrorStep(inputs, i);
    DirectoryStep(inputs, i, HeadersLen(|inputs|), imgPos);
    PayloadsStep(inputs, i);
    StoreInput(arr, EntryValues(input, w, h, imgPos), currPos, input.png.data, imgPos,
               header, dir, ImageHeaderSize * (|inputs| - i), pay, payloadLen - |pay|,
               ImageHeaderSize * (|inputs| - (i + 1)), payloadLen - |pay + inputs[i].png.data|);
    error := None;
  }

  /**
   * The two `set` calls for an accepted input: its entry over the first zeroed
   * directory slot and its payload over the start of the zeroed payload area.
   */
  method StoreInput(arr: array<Byte>, entryValues: seq<int>, entryPos: nat, data: seq<Byte>, dataPos: nat,
                    ghost hb: seq<Byte>, ghost d: seq<Byte>, ghost k: nat, ghost p: seq<Byte>, ghost rest: nat,
                    ghost k': nat, ghost rest': nat)
    requires |entryValues| <= k && |data| <= rest
    requires entryPos == |hb| + |d| && dataPos == |hb| + |d| + k + |p|
    requires k' == k - |entryValues| && rest' == rest - |data|
    requires arr[..] == Layout(hb, d, k, p, rest)
    modifies arr
    ensures arr[..] == Layout(hb, d + Uint8s(entryValues), k', p + data, rest')
  {
    LayoutEntry(hb, d, k, p, rest, entryPos, Uint8s(entryValues), k');
    Set(arr, entryValues, entryPos);
    LayoutPayload(hb, d + Uint8s(entryValues), k', p, rest, dataPos, data, rest');
    Uint8sOfBytes(data);
    Set(arr, data, dataPos);
  }

  /**
   * The buffer while the loop runs: the header, the entries written so far,
   * zeros for the remaining entries, the payloads written so far, zeros after them.
   */
  function Layout(hb: seq<Byte>, d: seq<Byte>, k: nat, p: seq<Byte>, rest: nat): (bs: seq<Byte>)
    ensures |bs| == |hb| + |d| + k + |p| + rest
  {
    hb + d + Zeros(k) + p + Zeros(rest)
  }

  /** The header written over a zero-filled buffer leaves zeros for the directory and the payloads. */
  lemma WriteHeader(hb: seq<Byte>, dirLen: nat, payloadLen: nat)
    requires |hb| == FileHeaderSize
    ensures Splice(Zeros(FileHeaderSize + dirLen + payloadLen), 0, hb) == Layout(hb, [], dirLen, [], payloadLen)
  {
    var s := Zeros(FileHeaderSize + dirLen + payloadLen);
    assert s[FileHeaderSize..] == Zeros(dirLen) + Zeros(payloadLen);
  }

  /** Writing an entry over the start of the zeroed directory part. */
  lemma LayoutEntry(hb: seq<Byte>, d: seq<Byte>, k: nat, p: seq<Byte>, rest: nat, pos: nat, e: seq<Byte>, k': nat)
    requires |e| <= k && k' == k - |e| && pos == |hb| + |d|
    ensures pos + |e| <= |Layout(hb, d, k, p, rest)|
    ensures Splice(Layout(hb, d, k, p, rest), pos, e) == Layout(hb, d + e, k', p, rest)
  {
    var s := Layout(hb, d, k, p, rest);
    assert s[..pos] == hb + d;
    assert s[pos + |e|..] == Zeros(k') + p + Zeros(rest);
  }

  /** Writing a payload over the start of the zeroed payload part. */
  lemma LayoutPayload(hb: seq<Byte>, d: seq<Byte>, k: nat, p: seq<Byte>, rest: nat, pos: nat, data: seq<Byte>, rest': nat)
    requires |data| <= rest && rest' == rest - |data| && pos == |hb| + |d| + k + |p|
    ensures pos + |data| <= |Layout(hb, d, k, p, rest)|
    ensures Splice(Layout(hb, d, k, p, rest), pos, data) == Layout(hb, d, k, p + data, rest')
  {
    var s := Layout(hb, d, k, p, rest);
    assert s[..pos] == hb + d + Zeros(k) + p;
    assert s[pos + |data|..] == Zeros(rest');
  }

  /** Once every entry and payload is written no zeros are left over. */
  lemma DropEmpty(a: seq<Byte>, b: seq<Byte>, z1: seq<Byte>, z2: seq<Byte>)
    requires z1 == [] && z2 == []
    ensures a + z1 + b + z2 == a + b
  {
  }

  /** After the last input the buffer holds the encoding of the inputs. */
  lemma LayoutComplete(inputs: seq<IcoInput>, header: seq<Byte>, dir: seq<Byte>, pay: seq<Byte>, payloadLen: nat)
    requires FirstError(inputs[..|inputs|]).None?
    requires dir == Directory(inputs[..|inputs|], HeadersLen(|inputs|))
    requires pay == Payloads(inputs[..|inputs|]) && payloadLen == TotalSize(inputs)
    ensures FirstError(inputs).None? && |pay| <= payloadLen
    ensures Layout(header, dir, ImageHeaderSize * (|inputs| - |inputs|), pay, payloadLen - |pay|)
            == header + Directory(inputs, HeadersLen(|inputs|)) + Payloads(inputs)
  {
    assert inputs[..|inputs|] == inputs;
    DropEmpty(header + dir, pay, Zeros(ImageHeaderSize * (|inputs| - |inputs|)), Zeros(payloadLen - |pay|));
  }

  /** The encoding of accepted inputs: header, directory, payloads. */
  lemma EncodeAccepted(inputs: seq<IcoInput>)
    requires |inputs| <= MaxFiles && FirstError(inputs).None?
    ensures Encode(inputs)
            == Success(Uint8s(HeaderValues(|inputs|)) + Directory(inputs, HeadersLen(|inputs|)) + Payloads(inputs))
  {
  }

  /** An input the loop body rejects is the first input that raises an error. */
  lemma RejectAt(inputs: seq<IcoInput>, i: nat)
    requires i < |inputs| && FirstError(inputs[..i]).None? && CheckInput(inputs[i]).Some?
    ensures FirstError(inputs) == CheckInput(inputs[i])
  {
    assert inputs[..i + 1][..i] == inputs[..i];
    FirstErrorPrefix(inputs, i + 1);
  }

  /** Accepting input `i` keeps the prefix free of errors. */
  lemma FirstErrorStep(inputs: seq<IcoInput>, i: nat)
    requires i < |inputs| && FirstError(inputs[..i]).None? && CheckInput(inputs[i]).None?
    ensures FirstError(inputs[..i + 1]).None?
  {
    assert inputs[..i + 1][..i] == inputs[..i];
  }

  /** The directory of the first `i + 1` inputs extends that of the first `i` by entry `i`. */
  lemma DirectoryStep(inputs: seq<IcoInput>, i: nat, base: int, imgPos: int)
    requires i < |inputs| && imgPos == base + TotalSize(inputs[..i])
    ensures Directory(inputs[..i + 1], base) == Directory(inputs[..i], base) + EntryBytes(inputs[i], imgPos)
  {
    assert inputs[..i + 1][..i] == inputs[..i];
  }

  /** The payloads of the first `i + 1` inputs extend those of the first `i` by payload `i`. */
  lemma PayloadsStep(inputs: seq<IcoInput>, i: nat)
    requires i < |inputs|
    ensures Payloads(inputs[..i + 1]) == Payloads(inputs[..i]) + inputs[i].png.data
    ensures |Payloads(inputs[..i + 1])| <= TotalSize(inputs)
  {
    assert inputs[..i + 1][..i] == inputs[..i];
    TotalSizePrefix(inputs, i + 1);
  }

  /** Once a prefix has raised an error, the whole input raises that same error. */
  lemma {:induction false} FirstErrorPrefix(inputs: seq<IcoInput>, k: nat)
    requires k <= |inputs| && FirstError(inputs[..k]).Some?
    ensures FirstError(inputs) == FirstError(inputs[..k])
    decreases |inputs|
  {
    if k < |inputs| {
      var prefix := inputs[..|inputs| - 1];
      assert prefix[..k] == inputs[..k];
      FirstErrorPrefix(prefix, k);
    } else {
      assert inputs[..k] == inputs;
    }
  }

  /** No input raises an error exactly when no input's own check fails. */
  lemma {:induction false} FirstErrorNone(inputs: seq<IcoInput>)
    ensures FirstError(inputs).None? <==> forall j :: 0 <= j < |inputs| ==> CheckInput(inputs[j]).None?
  {
    if |inputs| > 0 {
      var prefix := inputs[..|inputs| - 1];
      FirstErrorNone(prefix);
      assert forall j :: 0 <= j < |prefix| ==> prefix[j] == inputs[j];
    }
  }

  /** Prefix sums of the payload sizes grow by one payload at a time and stay below the total. */
  lemma {:induction false} TotalSizePrefix(inputs: seq<IcoInput>, k: nat)
    requires 0 < k <= |inputs|
    ensures TotalSize(inputs[..k]) == TotalSize(inputs[..k - 1]) + PayloadSize(inputs[k - 1])
    ensures TotalSize(inputs[..k]) <= TotalSize(inputs)
    decreases |inputs|
  {
    assert inputs[..k][..k - 1] == inputs[..k - 1];
    if k < |inputs| {
      var prefix := inputs[..|inputs| - 1];
      assert prefix[..k] == inputs[..k];
      assert prefix[..k - 1] == inputs[..k - 1];
      TotalSizePrefix(prefix, k);
    } else {
      assert inputs[..k] == inputs;
    }
  }

  /*
   * Properties of the encoding, read back field by field.
   */

  /** A slice that lies within the left operand of a concatenation. */
  lemma SliceLeft(a: seq<Byte>, b: seq<Byte>, lo: nat, hi: nat)
    requires lo <= hi <= |a|
    ensures (a + b)[lo..hi] == a[lo..hi]
  {
  }

  /** A slice that lies within the right operand of a concatenation. */
  lemma SliceShift(a: seq<Byte>, b: seq<Byte>, lo: nat, hi: nat, lo': nat, hi': nat)
    requires lo == |a| + lo' && hi == |a| + hi' && lo' <= hi' <= |b|
    ensures (a + b)[lo..hi] == b[lo'..hi']
  {
  }

  /** The slice that covers exactly the right operand of a concatenation. */
  lemma SliceRight(a: seq<Byte>, b: seq<Byte>, lo: nat, hi: nat)
    requires lo == |a| && hi == |a| + |b|
    ensures (a + b)[lo..hi] == b
  {
  }

  /** The entry of input `i` sits at slot `i` of the directory. */
  lemma {:induction false} DirectoryAt(inputs: seq<IcoInput>, base: int, i: nat, pos: int)
    requires i < |inputs| && pos == base + TotalSize(inputs[..i])
    ensures ImageHeaderSize * i + ImageHeaderSize <= |Directory(inputs, base)|
    ensures Directory(inputs, base)[ImageHeaderSize * i..ImageHeaderSize * i + ImageHeaderSize]
            == EntryBytes(inputs[i], pos)
    decreases |inputs|
  {
    var prefix := inputs[..|inputs| - 1];
    if i == |inputs| - 1 {
      DirectoryLast(inputs, base, i, pos);
    } else {
      assert prefix[..i] == inputs[..i] && prefix[i] == inputs[i];
      DirectoryAt(prefix, base, i, pos);
      DirectoryPrefix(inputs, base, i);
    }
  }

  /** The last slot of the directory holds the entry of the last input. */
  lemma DirectoryLast(inputs: seq<IcoInput>, base: int, i: nat, pos: int)
    requires i == |inputs| - 1 && pos == base + TotalSize(inputs[..i])
    ensures Directory(inputs, base)[ImageHeaderSize * i..ImageHeaderSize * i + ImageHeaderSize]
            == EntryBytes(inputs[i], pos)
  {
    var dir := Directory(inputs[..i], base);
    var last := EntryBytes(inputs[i], pos);
    SliceRight(dir, last, ImageHeaderSize * i, ImageHeaderSize * i + ImageHeaderSize);
  }

  /** The slots before the last one are those of the directory without the last input. */
  lemma DirectoryPrefix(inputs: seq<IcoInput>, base: int, i: nat)
    requires i < |inputs| - 1
    ensures Directory(inputs, base)[ImageHeaderSize * i..ImageHeaderSize * i + ImageHeaderSize]
            == Directory(inputs[..|inputs| - 1], base)[ImageHeaderSize * i..ImageHeaderSize * i + ImageHeaderSize]
  {
    var prefix := inputs[..|inputs| - 1];
    var dir := Directory(prefix, base);
    var last := EntryBytes(inputs[|inputs| - 1], base + TotalSize(prefix));
    SliceLeft(dir, last, ImageHeaderSize * i, ImageHeaderSize * i + ImageHeaderSize);
  }

  /** The payload of input `i` sits after the payloads of the inputs before it. */
  lemma {:induction false} PayloadsAt(inputs: seq<IcoInput>, i: nat)
    requires i < |inputs|
    ensures TotalSize(inputs[..i]) + PayloadSize(inputs[i]) <= |Payloads(inputs)|
    ensures Payloads(inputs)[TotalSize(inputs[..i])..TotalSize(inputs[..i]) + PayloadSize(inputs[i])]
            == inputs[i].png.data
    decreases |inputs|
  {
    var prefix := inputs[..|inputs| - 1];
    var pay := Payloads(prefix);
    var last := inputs[|inputs| - 1].png.data;
    assert Payloads(inputs) == pay + last;
    if i == |inputs| - 1 {
      assert prefix == inputs[..i];
    } else {
      PayloadsAt(prefix, i);
      assert prefix[..i] == inputs[..i];
      var start := TotalSize(inputs[..i]);
      assert (pay + last)[start..start + PayloadSize(inputs[i])] == pay[start..start + PayloadSize(inputs[i])];
    }
  }

  /** Offsets: the first payload follows the directory, each next one follows the previous payload. */
  lemma OffsetStep(inputs: seq<IcoInput>, i: nat)
    requires i < |inputs|
    ensures Offset(inputs, 0) == HeadersLen(|inputs|)
    ensures Offset(inputs, i + 1) == Offset(inputs, i) + PayloadSize(inputs[i])
    ensures Offset(inputs, i + 1) <= HeadersLen(|inputs|) + TotalSize(inputs)
  {
    assert inputs[..0] == [];
    TotalSizePrefix(inputs, i + 1);
    assert inputs[..i + 1][..i] == inputs[..i];
  }

  /** The header of an encoding: reserved 0, type 1, then the image count modulo 2^16. */
  lemma EncodeHeader(inputs: seq<IcoInput>)
    requires Encode(inputs).Success?
    ensures |Encode(inputs).value| >= FileHeaderSize
    ensures ReadU16LE(Encode(inputs).value, 0) == 0
    ensures ReadU16LE(Encode(inputs).value, 2) == 1
    ensures ReadU16LE(Encode(inputs).value, 4) == |inputs| % TwoTo16
  {
    var r := Encode(inputs).value;
    var header := Uint8s(HeaderValues(|inputs|));
    EncodeAccepted(inputs);
    To2BytesRoundTrip(|inputs|);
    assert r[..FileHeaderSize] == header;
    assert header == [0, 0, 1, 0] + To2Bytes(|inputs|);
  }

  /** Directory slot `i` of an encoding holds the entry of input `i` with its payload's offset. */
  lemma EncodeEntry(inputs: seq<IcoInput>, i: nat)
    requires Encode(inputs).Success? && i < |inputs|
    ensures FileHeaderSize + ImageHeaderSize * i + ImageHeaderSize <= |Encode(inputs).value|
    ensures Encode(inputs).value[FileHeaderSize + ImageHeaderSize * i..FileHeaderSize + ImageHeaderSize * i + ImageHeaderSize]
            == EntryBytes(inputs[i], Offset(inputs, i))
  {
    var header := Uint8s(HeaderValues(|inputs|));
    var dir := Directory(inputs, HeadersLen(|inputs|));
    EncodeAccepted(inputs);
    DirectoryAt(inputs, HeadersLen(|inputs|), i, Offset(inputs, i));
    SliceLeft(header + dir, Payloads(inputs), FileHeaderSize + ImageHeaderSize * i,
              FileHeaderSize + ImageHeaderSize * i + ImageHeaderSize);
    SliceShift(header, dir, FileHeaderSize + ImageHeaderSize * i, FileHeaderSize + ImageHeaderSize * i + ImageHeaderSize,
               ImageHeaderSize * i, ImageHeaderSize * i + ImageHeaderSize);
  }

  /** The payload of input `i` is copied unchanged to its offset. */
  lemma EncodePayload(inputs: seq<IcoInput>, i: nat)
    requires Encode(inputs).Success? && i < |inputs|
    ensures Offset(inputs, i) + PayloadSize(inputs[i]) <= |Encode(inputs).value|
    ensures Encode(inputs).value[Offset(inputs, i)..Offset(inputs, i) + PayloadSize(inputs[i])] == inputs[i].png.data
  {
    var headers := Uint8s(HeaderValues(|inputs|)) + Directory(inputs, HeadersLen(|inputs|));
    EncodeAccepted(inputs);
    PayloadsAt(inputs, i);
    SliceShift(headers, Payloads(inputs), Offset(inputs, i), Offset(inputs, i) + PayloadSize(inputs[i]),
               TotalSize(inputs[..i]), TotalSize(inputs[..i]) + PayloadSize(inputs[i]));
  }

  /**
   * The fields of a stored entry: width and height (0 above 256), four zero
   * bytes, the bit depth when the hint is truthy, the payload size and offset modulo 2^32.
   */
  lemma EntryFields(input: IcoInput, imgPos: int)
    requires input.decoded.Some?
    ensures EntryBytes(input, imgPos)[0] == StoredDimension(input.decoded.value.naturalWidth)
    ensures EntryBytes(input, imgPos)[1] == StoredDimension(input.decoded.value.naturalHeight)
    ensures EntryBytes(input, imgPos)[2..6] == [0, 0, 0, 0]
    ensures ReadU16LE(EntryBytes(input, imgPos), 6)
            == if input.bpp.Some? && input.bpp.value != 0 then input.bpp.value % TwoTo16 else 0
    ensures ReadU32LE(EntryBytes(input, imgPos), 8) == PayloadSize(input) % TwoTo32
    ensures ReadU32LE(EntryBytes(input, imgPos), 12) == imgPos % TwoTo32
  {
    var d := input.decoded.value;
    var e := EntryBytes(input, imgPos);
    var size := To4Bytes(PayloadSize(input));
    var pos := To4Bytes(imgPos);
    assert e == Uint8s(EntryValues(input, d.naturalWidth, d.naturalHeight, imgPos));
    assert e[8..12] == size;
    ReadU32LEAt(e, 8, size);
    To4BytesRoundTrip(PayloadSize(input));
    assert e[12..16] == pos;
    ReadU32LEAt(e, 12, pos);
    To4BytesRoundTrip(imgPos);
    if input.bpp.Some? && input.bpp.value != 0 {
      assert e[6..8] == To2Bytes(input.bpp.value);
      ReadU16LEAt(e, 6, To2Bytes(input.bpp.value));
      To2BytesRoundTrip(input.bpp.value);
    } else {
      assert e[6] == 0 && e[7] == 0;
    }
  }

  /** An encoding is rejected with the error of the first input that fails its checks. */
  lemma EncodeRejects(inputs: seq<IcoInput>, i: nat)
    requires |inputs| <= MaxFiles && i < |inputs|
    requires forall j :: 0 <= j < i ==> CheckInput(inputs[j]).None?
    requires CheckInput(inputs[i]).Some?
    ensures Encode(inputs) == Failure(CheckInput(inputs[i]).value)
  {
    var prefix := inputs[..i];
    assert forall j :: 0 <= j < |prefix| ==> prefix[j] == inputs[j];
    FirstErrorNone(prefix);
    RejectAt(inputs, i);
  }

  /** With no inputs the encoding is the bare header of an empty icon. */
  lemma EmptyInputEncodes()
    ensures Encode([]) == Success([0, 0, 1, 0, 0, 0])
  {
    assert To2Bytes(0) == [0, 0] by {
      To2BytesAsWritten(0);
    }
    assert Uint8s(HeaderValues(0)) == [0, 0, 1, 0, 0, 0];
    assert Directory([], HeadersLen(0)) == [] && Payloads([]) == [];
    assert Uint8s(HeaderValues(0)) + Directory([], HeadersLen(0)) + Payloads([]) == [0, 0, 1, 0, 0, 0];
  }

  /*
   * The image count field is two bytes wide, but the limit check lets
   * `MaxFiles` = 65536 inputs through, and `to2Bytes(65536)` is [0, 0].
   */

  /** A single 1 x 1 PNG-sized input that passes every check. */
  function SmallInput(): (input: IcoInput)
    ensures CheckInput(input).None?
  {
    IcoInput(Blob([]), None, false, Some(Dimensions(1, 1)))
  }

  /** As written: `MaxFiles` accepted inputs encode successfully with an image count of 0. */
  lemma CountWrapsAtMaxFiles()
    ensures Encode(seq(MaxFiles, _ => SmallInput())).Success?
    ensures ReadU16LE(Encode(seq(MaxFiles, _ => SmallInput())).value, 4) == 0
  {
    var inputs := seq(MaxFiles, _ => SmallInput());
    assert forall j :: 0 <= j < |inputs| ==> CheckInput(inputs[j]).None?;
    EncodeHeader(inputs);
  }

  /** The largest image count the two-byte field can hold. */
  const MaxCountableFiles: nat := 0xFFFF

  /** The encoder with the limit the count field allows: one input fewer than `MaxFiles`. */
  function EncodeBounded(inputs: seq<IcoInput>): Result<seq<Byte>, IcoError>
  {
    if |inputs| > MaxCountableFiles then Failure(TooManyFiles) else Encode(inputs)
  }

  /** With the corrected limit the header always records the true number of images. */
  lemma EncodeBoundedCount(inputs: seq<IcoInput>)
    requires EncodeBounded(inputs).Success?
    ensures |EncodeBounded(inputs).value| >= FileHeaderSize
    ensures ReadU16LE(EncodeBounded(inputs).value, 4) == |inputs|
  {
    EncodeHeader(inputs);
    DivModUnique(|inputs|, TwoTo16, 0, |inputs|);
  }
}
