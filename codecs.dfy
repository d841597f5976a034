/** The codec listing of VideoProcessor: which decoders can handle "video/avc"
    (getSupportedDecoderNames and codecSupportsVideoMime). */
module Codecs {
  import opened Geometry

  /** The parts of a MediaCodecInfo the listing reads. */
  datatype CodecInfo = CodecInfo(name: string, isEncoder: bool, supportedTypes: seq<string>)

  /** codecSupportsVideoMime: some supported type equals "video/avc" ignoring case. */
  function CodecSupportsVideoMime(types: seq<string>): (b: bool)
    ensures b <==> exists i :: 0 <= i < |types| && EqualsIgnoreCase(types[i], VIDEO_MIME)
  {
    if types == [] then false
    else if EqualsIgnoreCase(types[0], VIDEO_MIME) then true
    else
      var rest := CodecSupportsVideoMime(types[1..]);
      assert forall i :: 1 <= i < |types| ==> types[i] == types[1..][i - 1];
      rest
  }

  /** The filter of getSupportedDecoderNames: a decoder, not an encoder, that supports "video/avc". */
  predicate IsVideoDecoder(c: CodecInfo) {
    !c.isEncoder && CodecSupportsVideoMime(c.supportedTypes)
  }

  /** The names of the video decoders among `codecs`, in listing order. */
  function VideoDecoderNames(codecs: seq<CodecInfo>): (names: seq<string>)
    ensures |names| <= |codecs|
  {
    if codecs == [] then []
    else VideoDecoderNames(codecs[..|codecs| - 1])
         + (if IsVideoDecoder(codecs[|codecs| - 1]) then [codecs[|codecs| - 1].name] else [])
  }

  /** The listing of a concatenation is the concatenation of the listings: each codec
      contributes its own name or nothing, at its own place. */
  lemma {:induction false} VideoDecoderNamesAppend(a: seq<CodecInfo>, b: seq<CodecInfo>)
    ensures VideoDecoderNames(a + b) == VideoDecoderNames(a) + VideoDecoderNames(b)
    decreases |b|
  {
    if b == [] {
      assert a + b == a;
    } else {
      var b' := b[..|b| - 1];
      assert (a + b)[..|a + b| - 1] == a + b';
      assert (a + b)[|a + b| - 1] == b[|b| - 1];
      VideoDecoderNamesAppend(a, b');
    }
  }

  /** A name is listed exactly when some video decoder in the list carries it. */
  lemma {:induction false} VideoDecoderNamesMembership(codecs: seq<CodecInfo>, n: string)
    ensures n in VideoDecoderNames(codecs) <==>
            exists k :: 0 <= k < |codecs| && IsVideoDecoder(codecs[k]) && codecs[k].name == n
    decreases |codecs|
  {
    if codecs != [] {
      var init := codecs[..|codecs| - 1];
      VideoDecoderNamesMembership(init, n);
      assert forall k :: 0 <= k < |init| ==> init[k] == codecs[k];
      if n in VideoDecoderNames(codecs) && n !in VideoDecoderNames(init) {
        assert IsVideoDecoder(codecs[|codecs| - 1]) && codecs[|codecs| - 1].name == n;
      }
    }
  }

  /** getSupportedDecoderNames: walks the codec list once and appends the name of every
      video decoder, so the result is that list's video decoders, in order. */
  method GetSupportedDecoderNames(codecs: seq<CodecInfo>) returns (names: seq<string>)
    ensures names == VideoDecoderNames(codecs)
  {
    names := [];
    for i := 0 to |codecs|
      invariant names == VideoDecoderNames(codecs[..i])
    {
      var codecInfo := codecs[i];
      assert codecs[..i + 1][..i] == codecs[..i];
      if !codecInfo.isEncoder && CodecSupportsVideoMime(codecInfo.supportedTypes) {
        names := names + [codecInfo.name];
      }
    }
    assert codecs[..|codecs|] == codecs;
  }
}
