/** The asset resolver (src/engine/core/asset_resolver.hpp): an asset's
    path is the configured root directory, the asset kind's directory, the
    file name and the kind's single extension, concatenated. The root is a
    parameter here; the source reads it from the validated configuration. */
module Assets {
  import opened Faults

  /** One kind per resolver function: `image_path`, `sound_path`,
      `font_path`, `model_path`, `model_path_glb`. */
  datatype AssetKind = Image | Sound | Font | Model | ModelGlb

  function Directory(k: AssetKind): string
  {
    match k
    case Image => "assets/images/"
    case Sound => "assets/sounds/"
    case Font => "assets/fonts/"
    case Model => "assets/models/"
    case ModelGlb => "assets/models_glb/"
  }

  function Extension(k: AssetKind): string
  {
    match k
    case Image => ".png"
    case Sound => ".wav"
    case Font => ".ttf"
    case Model => ".obj"
    case ModelGlb => ".glb"
  }

  /** The path of asset `name` of kind `k` under `root`. */
  function AssetPath(root: string, k: AssetKind, name: string): (p: string)
    ensures |p| == |root| + |Directory(k)| + |name| + |Extension(k)|
    ensures root <= p
    ensures p[|root|..|root| + |Directory(k)|] == Directory(k)
    ensures p[|p| - |Extension(k)|..] == Extension(k)
  {
    root + Directory(k) + name + Extension(k)
  }

  /** Recovers the file name from a path of kind `k` under `root`, and
      fails on anything no call of AssetPath with these produces. It is
      not part of the resolver: it is the inverse that PathIsInjective is
      proved through. */
  function NameOf(root: string, k: AssetKind, p: string): (r: Option<string>)
    ensures r.Some? ==> AssetPath(root, k, r.value) == p
  {
    var lo := |root| + |Directory(k)|;
    if |p| < lo + |Extension(k)| then None
    else
      var name := p[lo..|p| - |Extension(k)|];
      if AssetPath(root, k, name) == p then Some(name) else None
  }

  /** NameOf inverts AssetPath: the name is read back from its path. */
  lemma NameOfPath(root: string, k: AssetKind, name: string)
    ensures NameOf(root, k, AssetPath(root, k, name)) == Some(name)
  {
    var p := AssetPath(root, k, name);
    var lo := |root| + |Directory(k)|;
    assert p[lo..|p| - |Extension(k)|] == name;
  }

  /** Distinct names under one root and kind have distinct paths. */
  lemma PathIsInjective(root: string, k: AssetKind, a: string, b: string)
    requires AssetPath(root, k, a) == AssetPath(root, k, b)
    ensures a == b
  {
    NameOfPath(root, k, a);
    NameOfPath(root, k, b);
  }

  /** Position at which the directories of two different kinds first
      differ: after "assets/", or after "assets/models" for the two model
      kinds. */
  function Divergence(j: AssetKind, k: AssetKind): (i: nat)
    requires j != k
    ensures i < |Directory(j)| && i < |Directory(k)|
    ensures Directory(j)[i] != Directory(k)[i]
  {
    if (j == Model && k == ModelGlb) || (j == ModelGlb && k == Model) then 13 else 7
  }

  /** Under one root, assets of different kinds never share a path. */
  lemma KindsDoNotCollide(root: string, j: AssetKind, a: string, k: AssetKind, b: string)
    requires j != k
    ensures AssetPath(root, j, a) != AssetPath(root, k, b)
  {
    var i := Divergence(j, k);
    var p := AssetPath(root, j, a);
    var q := AssetPath(root, k, b);
    assert p[|root| + i] == Directory(j)[i];
    assert q[|root| + i] == Directory(k)[i];
  }
}
