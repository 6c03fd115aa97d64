/** Names and addresses of the three artifacts of one request. Each
    artifact is named by the request's base id and an extension. */
module Artifacts {

  /** An uploaded object: its name in the bucket and its content type. */
  datatype Artifact = Artifact(name: string, contentType: string)

  const ImageType: string := "image/png"
  const TextType: string := "text/plain"
  /** As written; the registered type for MP3 is "audio/mpeg". */
  const AudioType: string := "audio/mp3"

  /** The fixed public address the audio URL starts with; the upload
      itself goes to the bucket the environment names. */
  const BucketUrl: string := "https://storage.googleapis.com/davidattenborough/"

  /** The local file and object names: the request's id and an extension. */
  function ImageName(id: string): (n: string)
    ensures NamedBy(n, id) && n[|id|..] == ".png"
  { id + ".png" }

  function TextName(id: string): (n: string)
    ensures NamedBy(n, id) && n[|id|..] == ".txt"
  { id + ".txt" }

  function AudioName(id: string): (n: string)
    ensures NamedBy(n, id) && n[|id|..] == ".mp3"
  { id + ".mp3" }

  /** The URL sent to the client for the request's audio: the fixed
      public address followed by the audio's object name. */
  function AudioUrl(id: string): (u: string)
    ensures u == BucketUrl + AudioName(id)
  { BucketUrl + id + ".mp3" }

  function ImageArtifact(id: string): Artifact { Artifact(ImageName(id), ImageType) }
  function TextArtifact(id: string): Artifact { Artifact(TextName(id), TextType) }
  function AudioArtifact(id: string): Artifact { Artifact(AudioName(id), AudioType) }

  /** All artifacts of one request, in the order they are uploaded. */
  function Bundle(id: string): (b: seq<Artifact>)
    ensures |b| == 3
    ensures NamedBy(b[0].name, id) && NamedBy(b[1].name, id) && NamedBy(b[2].name, id)
    ensures b[0].contentType == ImageType && b[1].contentType == TextType && b[2].contentType == AudioType
  {
    [ImageArtifact(id), TextArtifact(id), AudioArtifact(id)]
  }

  /** `name` is `id` followed by a four-character extension. */
  predicate NamedBy(name: string, id: string)
  {
    |name| == |id| + 4 && name[..|id|] == id
  }

  /** Every artifact of a request carries the request's id as its base name,
      and the URL addresses the audio artifact. */
  lemma BundleSharesId(id: string)
    ensures forall a :: a in Bundle(id) ==> NamedBy(a.name, id)
    ensures AudioUrl(id) == BucketUrl + AudioName(id)
  {
    assert ImageName(id)[..|id|] == id;
    assert TextName(id)[..|id|] == id;
    assert AudioName(id)[..|id|] == id;
  }

  /** The base id can be read back from a name, so two requests with
      different ids never share an artifact name. */
  lemma NamesDetermineId(id: string, other: string)
    ensures ImageName(id) == ImageName(other) ==> id == other
    ensures TextName(id) == TextName(other) ==> id == other
    ensures AudioName(id) == AudioName(other) ==> id == other
    ensures AudioUrl(id) == AudioUrl(other) ==> id == other
  {
    if ImageName(id) == ImageName(other) {
      assert id == ImageName(id)[..|id|] == ImageName(other)[..|other|] == other;
    }
    if TextName(id) == TextName(other) {
      assert id == TextName(id)[..|id|] == TextName(other)[..|other|] == other;
    }
    if AudioName(id) == AudioName(other) {
      assert id == AudioName(id)[..|id|] == AudioName(other)[..|other|] == other;
    }
    if AudioUrl(id) == AudioUrl(other) {
      assert |id| == |other|;
      assert id == AudioUrl(id)[|BucketUrl|..|BucketUrl| + |id|] == AudioUrl(other)[|BucketUrl|..|BucketUrl| + |other|] == other;
    }
  }

  /** Artifacts of different kinds never share a name, whatever their ids:
      the extensions differ in their last character. */
  lemma KindsNeverCollide(id: string, other: string)
    ensures ImageName(id) != TextName(other)
    ensures ImageName(id) != AudioName(other)
    ensures TextName(id) != AudioName(other)
  {
    var i, t, t', a := ImageName(id), TextName(other), TextName(id), AudioName(other);
    assert i[|i| - 1] == 'g' && t[|t| - 1] == 't' && t'[|t'| - 1] == 't' && a[|a| - 1] == '3';
  }
}
