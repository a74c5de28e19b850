/** The list searches the tests run before a pipeline is built: choosing an
    encoder for a MIME type, a colour format the test knows how to fill, and
    the first video or audio track of the source. The codec list, the
    capability list and the track list are inputs. */
module CodecSelection {
  import opened Common

  /** What `MediaCodecList.getCodecInfoAt(i)` reports about one codec. */
  datatype CodecInfo = CodecInfo(name: string, isEncoder: bool, supportedTypes: seq<string>)

  /** Colour-format constants of MediaCodecInfo.CodecCapabilities. */
  const COLOR_FormatYUV420Planar: int := 19
  const COLOR_FormatYUV420PackedPlanar: int := 20
  const COLOR_FormatYUV420SemiPlanar: int := 21
  const COLOR_FormatYUV420PackedSemiPlanar: int := 39
  const COLOR_TI_FormatYUV420PackedSemiPlanar: int := 0x7f000100

  const VIDEO_AVC: string := "video/avc"
  const AUDIO_AAC: string := "audio/mp4a-latm"

  function ToLowerAscii(c: char): char {
    if 'A' <= c <= 'Z' then ((c as int) + 32) as char else c
  }

  /** `String.equalsIgnoreCase`, folding ASCII letters only. */
  predicate EqualsIgnoreCase(a: string, b: string) {
    |a| == |b| && forall i :: 0 <= i < |a| ==> ToLowerAscii(a[i]) == ToLowerAscii(b[i])
  }

  /** A codec that `selectCodec` accepts for `mime`. */
  predicate Suitable(c: CodecInfo, mime: string) {
    c.isEncoder && exists j :: 0 <= j < |c.supportedTypes| && EqualsIgnoreCase(c.supportedTypes[j], mime)
  }

  /** `selectCodec`: the first encoder listing a type equal to `mime` up to
      case, or none. */
  method SelectCodec(codecs: seq<CodecInfo>, mime: string) returns (r: Option<nat>)
    ensures r.Some? ==> r.value < |codecs| && Suitable(codecs[r.value], mime)
    ensures r.Some? ==> forall k :: 0 <= k < r.value ==> !Suitable(codecs[k], mime)
    ensures r.None? <==> forall k :: 0 <= k < |codecs| ==> !Suitable(codecs[k], mime)
  {
    var i := 0;
    while i < |codecs|
      invariant 0 <= i <= |codecs|
      invariant forall k :: 0 <= k < i ==> !Suitable(codecs[k], mime)
    {
      var info := codecs[i];
      if info.isEncoder {
        var types := info.supportedTypes;
        var j := 0;
        while j < |types|
          invariant 0 <= j <= |types|
          invariant forall t :: 0 <= t < j ==> !EqualsIgnoreCase(types[t], mime)
        {
          if EqualsIgnoreCase(types[j], mime) {
            return Some(i);
          }
          j := j + 1;
        }
      }
      i := i + 1;
    }
    return None;
  }

  /** `isRecognizedFormat`: the five YUV 4:2:0 layouts the tests can fill. */
  predicate IsRecognizedFormat(colorFormat: int) {
    colorFormat in {COLOR_FormatYUV420Planar, COLOR_FormatYUV420PackedPlanar,
                    COLOR_FormatYUV420SemiPlanar, COLOR_FormatYUV420PackedSemiPlanar,
                    COLOR_TI_FormatYUV420PackedSemiPlanar}
  }

  /** The recognised formats by their platform values: the five YUV 4:2:0
      layouts, of which the last three are semi-planar. */
  lemma RecognizedFormatValues(colorFormat: int)
    ensures IsRecognizedFormat(colorFormat) <==> colorFormat in {19, 20, 21, 39, 0x7f000100}
    ensures IsSemiPlanarYUV(colorFormat) == Ok(true) <==> colorFormat in {21, 39, 0x7f000100}
    ensures IsSemiPlanarYUV(colorFormat) == Ok(false) <==> colorFormat in {19, 20}
  {
  }

  /** `isSemiPlanarYUV`: false for the two planar layouts, true for the three
      semi-planar ones, and an exception for every other format. */
  function IsSemiPlanarYUV(colorFormat: int): (r: Result<bool>)
    ensures r.Ok? <==> IsRecognizedFormat(colorFormat)
    ensures r.Fail? ==> r.error == UnknownColorFormat(colorFormat)
    ensures r.Ok? ==> (r.value <==> colorFormat !in {COLOR_FormatYUV420Planar, COLOR_FormatYUV420PackedPlanar})
  {
    if colorFormat == COLOR_FormatYUV420Planar || colorFormat == COLOR_FormatYUV420PackedPlanar then
      Ok(false)
    else if colorFormat == COLOR_FormatYUV420SemiPlanar
         || colorFormat == COLOR_FormatYUV420PackedSemiPlanar
         || colorFormat == COLOR_TI_FormatYUV420PackedSemiPlanar then
      Ok(true)
    else
      Fail(UnknownColorFormat(colorFormat))
  }

  /** `selectColorFormat`: the first recognized format the codec offers;
      a test failure when it offers none. */
  method SelectColorFormat(colorFormats: seq<int>) returns (r: Result<int>)
    ensures r.Ok? ==> IsRecognizedFormat(r.value)
    ensures r.Ok? ==> exists i :: 0 <= i < |colorFormats| && colorFormats[i] == r.value
                       && forall k :: 0 <= k < i ==> !IsRecognizedFormat(colorFormats[k])
    ensures r.Fail? <==> forall k :: 0 <= k < |colorFormats| ==> !IsRecognizedFormat(colorFormats[k])
    ensures r.Fail? ==> r.error == NoGoodColorFormat
  {
    var i := 0;
    while i < |colorFormats|
      invariant 0 <= i <= |colorFormats|
      invariant forall k :: 0 <= k < i ==> !IsRecognizedFormat(colorFormats[k])
    {
      if IsRecognizedFormat(colorFormats[i]) {
        return Ok(colorFormats[i]);
      }
      i := i + 1;
    }
    return Fail(NoGoodColorFormat);
  }

  predicate StartsWith(s: string, prefix: string) {
    |prefix| <= |s| && s[..|prefix|] == prefix
  }

  /** `getAndSelectVideoTrackIndex` / `getAndSelectAudioTrackIndex`: the index
      of the first track whose MIME type starts with `prefix` ("video/" or
      "audio/"), or -1. */
  method TrackIndex(trackMimes: seq<string>, prefix: string) returns (r: int)
    ensures -1 <= r < |trackMimes|
    ensures r >= 0 ==> StartsWith(trackMimes[r], prefix)
    ensures r >= 0 ==> forall k :: 0 <= k < r ==> !StartsWith(trackMimes[k], prefix)
    ensures r == -1 <==> forall k :: 0 <= k < |trackMimes| ==> !StartsWith(trackMimes[k], prefix)
  {
    var index := 0;
    while index < |trackMimes|
      invariant 0 <= index <= |trackMimes|
      invariant forall k :: 0 <= k < index ==> !StartsWith(trackMimes[k], prefix)
    {
      if StartsWith(trackMimes[index], prefix) {
        return index;
      }
      index := index + 1;
    }
    return -1;
  }

  /** Whether a codec suits a MIME type depends on the type only up to
      letter case. */
  lemma SuitableIgnoresCase(c: CodecInfo, m1: string, m2: string)
    requires EqualsIgnoreCase(m1, m2)
    ensures Suitable(c, m1) <==> Suitable(c, m2)
  {
    if Suitable(c, m1) {
      var j :| 0 <= j < |c.supportedTypes| && EqualsIgnoreCase(c.supportedTypes[j], m1);
      assert EqualsIgnoreCase(c.supportedTypes[j], m2);
    }
    if Suitable(c, m2) {
      var j :| 0 <= j < |c.supportedTypes| && EqualsIgnoreCase(c.supportedTypes[j], m2);
      assert EqualsIgnoreCase(c.supportedTypes[j], m1);
    }
  }

  /** Example: an encoder listing "VIDEO/AVC" is chosen for "video/avc";
      a decoder never is. */
  lemma SuitableCaseExample()
    ensures Suitable(CodecInfo("enc", true, ["VIDEO/AVC"]), VIDEO_AVC)
    ensures !Suitable(CodecInfo("dec", false, ["video/avc"]), VIDEO_AVC)
  {
    var t := "VIDEO/AVC";
    assert EqualsIgnoreCase(t, VIDEO_AVC) by {
      forall i | 0 <= i < |t| ensures ToLowerAscii(t[i]) == ToLowerAscii(VIDEO_AVC[i]) {
      }
    }
    assert ["VIDEO/AVC"][0] == t;
  }
}
