/**
  The two computations of the result bar: the name offered for the download, and the
  rough size in KB shown next to the preview.
*/
module ActionsBar {
  import opened JsMath

  const DOWNLOAD_SUFFIX: string := "_brave-pink-hero-green-1312.png"

  /** A character the pattern `[^/.]` accepts. */
  predicate IsExtensionChar(c: char) {
    c != '/' && c != '.'
  }

  /**
    The pattern `\.[^/.]+$` matches starting at index j: a dot, then at least one
    character, and no '/' or '.' from there to the end of the name.
  */
  predicate ExtensionAt(name: string, j: nat) {
    && j + 1 < |name|
    && name[j] == '.'
    && forall k :: j < k < |name| ==> IsExtensionChar(name[k])
  }

  /** The pattern can match in at most one place: the last dot of the name. */
  lemma ExtensionAtUnique(name: string, i: nat, j: nat)
    requires ExtensionAt(name, i) && ExtensionAt(name, j)
    ensures i == j
  {
  }

  /** The length of the longest run of extension characters at the end of `name`. */
  function TrailingRun(name: string): (n: nat)
    ensures n <= |name|
    ensures forall k :: |name| - n <= k < |name| ==> IsExtensionChar(name[k])
    ensures n < |name| ==> !IsExtensionChar(name[|name| - 1 - n])
  {
    if |name| == 0 || !IsExtensionChar(name[|name| - 1]) then 0
    else TrailingRun(name[..|name| - 1]) + 1
  }

  /**
    `filename.replace(/\.[^/.]+$/, "")`: the final extension, dot included, is removed
    when there is one; otherwise the name is kept whole.
  */
  function StripExtension(name: string): (base: string)
    ensures base <= name
    ensures base == name || (ExtensionAt(name, |base|) && |base| < |name|)
    ensures base == name <==> forall j :: 0 <= j < |name| ==> !ExtensionAt(name, j)
  {
    var run := TrailingRun(name);
    if 0 < run < |name| && name[|name| - 1 - run] == '.' then
      name[..|name| - 1 - run]
    else
      assert forall j :: 0 <= j < |name| ==> !ExtensionAt(name, j) by {
        forall j | 0 <= j < |name| && ExtensionAt(name, j)
          ensures false
        {
        }
      }
      name
  }

  /** A name with no dot at all is kept whole. */
  lemma NoDotKeptWhole(name: string)
    requires forall k :: 0 <= k < |name| ==> name[k] != '.'
    ensures StripExtension(name) == name
  {
    forall j | 0 <= j < |name|
      ensures !ExtensionAt(name, j)
    {
      assert name[j] != '.';
    }
  }

  /** The name offered for the download: the stripped name and the fixed suffix. */
  function DownloadName(filename: string): (r: string)
    ensures |r| >= |DOWNLOAD_SUFFIX|
    ensures r[|r| - |DOWNLOAD_SUFFIX|..] == DOWNLOAD_SUFFIX
    ensures r[..|r| - |DOWNLOAD_SUFFIX|] <= filename
  {
    StripExtension(filename) + DOWNLOAD_SUFFIX
  }

  /** Examples of the stripping rule: only the last extension goes, and only a real one. */
  lemma StripExtensionExamples()
    ensures StripExtension("photo.tar.gz") == "photo.tar"
    ensures StripExtension("a.") == "a."
    ensures StripExtension("a.b/c") == "a.b/c"
    ensures StripExtension(".bashrc") == ""
  {
    var tgz := "photo.tar.gz";
    assert ExtensionAt(tgz, 9);
    ExtensionAtUnique(tgz, 9, |StripExtension(tgz)|);
    assert !ExtensionAt("a.", 0) && !ExtensionAt("a.", 1);
    var path := "a.b/c";
    assert !IsExtensionChar(path[3]);
    assert forall j :: 0 <= j < |path| ==> !ExtensionAt(path, j);
    var rc := ".bashrc";
    assert ExtensionAt(rc, 0);
    ExtensionAtUnique(rc, 0, |StripExtension(rc)|);
  }

  /**
    `fileSizeKB`: `Math.round(url.length * 0.75 / 1024)`, the rule for the size of the
    data in a base64 `data:` URL of that length. The products and quotient are exact in
    double precision for any realistic length, so rational arithmetic matches the source.
  */
  function FileSizeKB(urlLength: nat): (kb: nat)
    ensures kb == (6 * urlLength + 4096) / 8192
  {
    var x := urlLength as real * 0.75 / 1024.0;
    assert x == (3 * urlLength) as real / 4096.0;
    SizeRounding(urlLength);
    Round(x)
  }

  lemma SizeRounding(n: nat)
    ensures Round((3 * n) as real / 4096.0) == (6 * n + 4096) / 8192
  {
    var q := (6 * n + 4096) / 8192;
    var x := (3 * n) as real / 4096.0;
    assert q * 8192 <= 6 * n + 4096 < q * 8192 + 8192;
    assert (q as real) * 8192.0 <= x * 8192.0 * 2.0 / 2.0 + 4096.0;
    assert q as real <= x + 0.5 < q as real + 1.0;
  }

  /**
    The URL the result bar receives is a `blob:` object URL, a few dozen characters long
    whatever the image. The estimate is 0 for every URL shorter than 683 characters.
  */
  lemma ZeroKBBelow683(urlLength: nat)
    ensures FileSizeKB(urlLength) == 0 <==> urlLength < 683
  {
  }

  /**
    The size in KB of `byteCount` bytes of image data, rounded as `Math.round` does:
    within half a KB of the exact size, and at least 1 from 512 bytes up.
  */
  function ImageSizeKB(byteCount: nat): (kb: nat)
    ensures 1024 * kb - 512 <= byteCount < 1024 * kb + 512
    ensures byteCount >= 512 ==> kb >= 1
  {
    var x := byteCount as real / 1024.0;
    var r := Round(x);
    assert 1024.0 * r as real <= byteCount as real + 512.0;
    assert byteCount as real < 1024.0 * r as real + 512.0;
    r
  }

  /** A longer URL never shows a smaller size. */
  lemma FileSizeKBMonotone(a: nat, b: nat)
    requires a <= b
    ensures FileSizeKB(a) <= FileSizeKB(b)
  {
  }
}
