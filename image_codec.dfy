/** `decode_image`: validation of an inbound data URI, base 64 decoding of
    its payload, and the hand-off of the bytes to the raster library. */
module ImageCodec {
  import opened Wrappers
  import opened Strings
  import opened Base64

  /** The only accepted text before the first comma. */
  const PngPrefix: string := "data:image/png;base64"

  /** The exceptions `decode_image` can raise. `ValueError` covers a bad
      prefix, a missing comma and bad base 64; `ImportError` a missing raster
      library; `OSError` a payload the raster library cannot identify. */
  datatype ImageError = ValueError | ImportError | OSError

  /** The raster library, seen from outside: whether it is installed, and
      which byte strings it recognises as an image. */
  datatype Raster = Raster(installed: bool, opens: seq<byte> -> bool)

  /** The decoded image, in whatever format the library identified; the
      model keeps the bytes it was opened from. */
  datatype Image = Image(bytes: seq<byte>)

  /** `decode_image(data)`. Succeeds only when the text before the first
      comma is exactly the PNG prefix and the rest is base 64 that the
      raster library opens. */
  function DecodeImage(data: string, raster: Raster): (r: Result<Image, ImageError>)
    ensures r.Success? ==>
              |PngPrefix| < |data| && data[..|PngPrefix| + 1] == PngPrefix + "," &&
              Decode(data[|PngPrefix| + 1..]) == Some(r.value.bytes) &&
              raster.installed && raster.opens(r.value.bytes)
  {
    var parts := SplitOnce(data, ',');
    if |parts| != 2 then Failure(ValueError)
    else if parts[0] != PngPrefix then Failure(ValueError)
    else
      match Decode(parts[1])
      case None => Failure(ValueError)
      case Some(bytes) =>
        if !raster.installed then Failure(ImportError)
        else if raster.opens(bytes) then Success(Image(bytes))
        else Failure(OSError)
  }

  /** A message with no comma, such as "ping", cannot be unpacked into a
      prefix and a payload. */
  lemma NoCommaFails(data: string, raster: Raster)
    requires ',' !in data
    ensures DecodeImage(data, raster) == Failure(ValueError)
  {
  }

  /** Any text other than the PNG prefix before the first comma fails,
      whatever follows. */
  lemma WrongPrefixFails(prefix: string, payload: string, raster: Raster)
    requires ',' !in prefix && prefix != PngPrefix
    ensures DecodeImage(prefix + "," + payload, raster) == Failure(ValueError)
  {
    SplitOnceAt(prefix, ',', payload);
  }

  /** With the right prefix, everything after the first comma, later commas
      included, is the base 64 payload. */
  lemma PayloadAfterFirstComma(payload: string, raster: Raster)
    ensures DecodeImage(PngPrefix + "," + payload, raster) ==
            match Decode(payload)
            case None => Failure(ValueError)
            case Some(bytes) =>
              if !raster.installed then Failure(ImportError)
              else if raster.opens(bytes) then Success(Image(bytes))
              else Failure(OSError)
  {
    SplitOnceAt(PngPrefix, ',', payload);
  }

  /** A data URI built from the bytes of an image that the library opens is
      decoded back to those bytes. */
  lemma EncodedImageDecodes(image: seq<byte>, raster: Raster)
    requires raster.installed && raster.opens(image)
    ensures DecodeImage(PngPrefix + "," + Encode(image), raster) == Success(Image(image))
  {
    PayloadAfterFirstComma(Encode(image), raster);
    DecodeEncode(image);
  }
}
