/** Track selection and output geometry of a transcode job (VideoProcessor's
    setupMediaExtractor and findVideoTrack). */
module Geometry {
  import opened Wrappers
  import opened MediaTypes

  const VIDEO_MIME: string := "video/avc"

  /** Character.toUpperCase restricted to ASCII letters. */
  function AsciiUpper(c: char): char {
    if 'a' <= c <= 'z' then (c as int - 'a' as int + 'A' as int) as char else c
  }

  /** String.equalsIgnoreCase, with ASCII case folding. */
  predicate EqualsIgnoreCase(a: string, b: string) {
    |a| == |b| && forall i :: 0 <= i < |a| ==> AsciiUpper(a[i]) == AsciiUpper(b[i])
  }

  /** The loop of findVideoTrack from index `from` on: the first track at or after
      `from` whose MIME type is "video/avc" ignoring case, or -1. */
  function FindVideoTrackFrom(tracks: seq<TrackFormat>, from: nat): (i: int)
    requires from <= |tracks|
    ensures i == -1 || from <= i < |tracks|
    ensures i >= 0 ==> EqualsIgnoreCase(tracks[i].mime, VIDEO_MIME)
    ensures i >= 0 ==> forall j :: from <= j < i ==> !EqualsIgnoreCase(tracks[j].mime, VIDEO_MIME)
    ensures i == -1 <==> forall j :: from <= j < |tracks| ==> !EqualsIgnoreCase(tracks[j].mime, VIDEO_MIME)
    decreases |tracks| - from
  {
    if from == |tracks| then -1
    else if EqualsIgnoreCase(tracks[from].mime, VIDEO_MIME) then from
    else FindVideoTrackFrom(tracks, from + 1)
  }

  /** findVideoTrack: the smallest index whose MIME type equals "video/avc" ignoring
      case, or -1 when there is none. */
  function FindVideoTrack(tracks: seq<TrackFormat>): (i: int)
    ensures -1 <= i < |tracks|
    ensures i >= 0 ==> EqualsIgnoreCase(tracks[i].mime, VIDEO_MIME)
    ensures i >= 0 ==> forall j :: 0 <= j < i ==> !EqualsIgnoreCase(tracks[j].mime, VIDEO_MIME)
    ensures i == -1 <==> forall j :: 0 <= j < |tracks| ==> !EqualsIgnoreCase(tracks[j].mime, VIDEO_MIME)
  {
    FindVideoTrackFrom(tracks, 0)
  }

  /** The rotation read from KEY_ROTATION; getInteger throws when the key is absent and
      the code falls back to 0. */
  function RotationOf(format: TrackFormat): (rotation: int)
    ensures format.rotation.None? ==> rotation == 0
    ensures format.rotation.Some? ==> rotation == format.rotation.value
  {
    match format.rotation
    case None => 0
    case Some(r) => r
  }

  /** True for the rotations that keep the frame's width and height. */
  predicate KeepsOrientation(rotation: int) {
    rotation == 0 || rotation == 180
  }

  /** The encoder/engine geometry of a job: the source's width, height and rotation,
      and the rotated output size. */
  datatype JobGeometry = JobGeometry(width: nat, height: nat, rotation: int, rotatedWidth: nat, rotatedHeight: nat)

  /** rotatedWidth and rotatedHeight of setupMediaExtractor. */
  function Rotate(width: nat, height: nat, rotation: int): (g: JobGeometry)
    ensures g.width == width && g.height == height && g.rotation == rotation
    ensures KeepsOrientation(rotation) ==> g.rotatedWidth == width && g.rotatedHeight == height
    ensures !KeepsOrientation(rotation) ==> g.rotatedWidth == height && g.rotatedHeight == width
  {
    JobGeometry(width, height, rotation,
                if KeepsOrientation(rotation) then width else height,
                if KeepsOrientation(rotation) then height else width)
  }

  /** A quarter turn swaps the dimensions; a half turn or none keeps them. */
  lemma RotationLaw(width: nat, height: nat, rotation: int)
    requires rotation in {0, 90, 180, 270}
    ensures rotation in {90, 270} ==>
      Rotate(width, height, rotation).rotatedWidth == height && Rotate(width, height, rotation).rotatedHeight == width
    ensures rotation in {0, 180} ==>
      Rotate(width, height, rotation).rotatedWidth == width && Rotate(width, height, rotation).rotatedHeight == height
  {
  }

  /** Rotating the rotated size again by the same angle gives back the source size,
      and the pixel count never changes. */
  lemma RotateInvolution(width: nat, height: nat, rotation: int)
    ensures var g := Rotate(width, height, rotation);
            var h := Rotate(g.rotatedWidth, g.rotatedHeight, rotation);
            h.rotatedWidth == width && h.rotatedHeight == height
            && g.rotatedWidth * g.rotatedHeight == width * height
  {
  }

  /** getTrackFormat(i) for every track index i. */
  function Formats(tracks: seq<Track>): (formats: seq<TrackFormat>)
    ensures |formats| == |tracks|
    ensures forall k :: 0 <= k < |tracks| ==> formats[k] == tracks[k].format
  {
    seq(|tracks|, k requires 0 <= k < |tracks| => tracks[k].format)
  }

  datatype SetupError = TrackNotFound  // IllegalArgumentException("video/avc track not found")

  /** What setupMediaExtractor leaves behind: the selected track, its samples, the geometry. */
  datatype Source = Source(trackIndex: nat, samples: seq<Sample>, geometry: JobGeometry)

  /** setupMediaExtractor: select the first "video/avc" track, or fail when there is none;
      a missing rotation counts as 0. */
  function SetupMediaExtractor(tracks: seq<Track>): (r: Result<Source, SetupError>)
    ensures r.Failure? <==> forall j :: 0 <= j < |tracks| ==> !EqualsIgnoreCase(tracks[j].format.mime, VIDEO_MIME)
    ensures r.Success? ==> r.value.trackIndex < |tracks|
    ensures r.Success? && r.value.trackIndex < |tracks| ==>
      var i := r.value.trackIndex;
      var f := tracks[i].format;
      && EqualsIgnoreCase(f.mime, VIDEO_MIME)
      && (forall j :: 0 <= j < i ==> !EqualsIgnoreCase(tracks[j].format.mime, VIDEO_MIME))
      && r.value.samples == tracks[i].samples
      && r.value.geometry.width == f.width && r.value.geometry.height == f.height
      && r.value.geometry == Rotate(f.width, f.height, RotationOf(f))
      && (f.rotation.None? ==> r.value.geometry.rotation == 0
                               && r.value.geometry.rotatedWidth == f.width
                               && r.value.geometry.rotatedHeight == f.height)
  {
    var formats := Formats(tracks);
    var i := FindVideoTrack(formats);
    if i < 0 then Failure(TrackNotFound)
    else
      var f := tracks[i].format;
      Success(Source(i, tracks[i].samples, Rotate(f.width, f.height, RotationOf(f))))
  }
}
