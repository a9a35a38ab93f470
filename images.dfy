/**
  How the converter names the images it copies out of a package, and how it
  maps a drawing's relationship id to one of those names
  (convert_with_paragraph_breaks.py, `extract_content_and_images`). The md5
  digest of the image bytes is a function parameter; the copy itself is file
  I/O and is not part of this model.
 */
module Images {
  import opened Wrappers
  import opened Strings
  import opened DocxTree

  /** The index of the last `c` in `s`, or -1: Python's `s.rfind(c)`. */
  function LastIndexOf(s: string, c: char): (i: int)
    ensures -1 <= i < |s|
    ensures i >= 0 ==> s[i] == c
    ensures forall k :: i < k < |s| ==> s[k] != c
    decreases |s|
  {
    if s == [] then -1 else if s[|s| - 1] == c then |s| - 1 else LastIndexOf(s[..|s| - 1], c)
  }

  /** Whether a file name has a suffix: a last dot that neither starts nor ends the name. */
  predicate HasSuffix(name: string) {
    var i := LastIndexOf(name, '.');
    0 < i < |name| - 1
  }

  /** `PurePath.suffix`: from the last dot on, or "" when there is no proper suffix. */
  function Suffix(name: string): string {
    if HasSuffix(name) then name[LastIndexOf(name, '.')..] else ""
  }

  /** `PurePath.stem`: the name without its suffix. */
  function Stem(name: string): string {
    if HasSuffix(name) then name[..LastIndexOf(name, '.')] else name
  }

  /** Stem and suffix split the name; a non-empty suffix is a dot and at least one other character, none of them a dot. */
  lemma StemSuffixSplit(name: string)
    ensures Stem(name) + Suffix(name) == name
    ensures Suffix(name) != "" ==> |Suffix(name)| >= 2 && Suffix(name)[0] == '.' && Stem(name) != ""
                                   && forall k :: 1 <= k < |Suffix(name)| ==> Suffix(name)[k] != '.'
  {
    if HasSuffix(name) {
      var i := LastIndexOf(name, '.');
      assert name[..i] + name[i..] == name;
      forall k | 1 <= k < |Suffix(name)| ensures Suffix(name)[k] != '.' {
        assert Suffix(name)[k] == name[i + k];
      }
    }
  }

  /** The image extensions that are copied, compared after lower-casing. */
  predicate IsImageName(name: string) {
    Lower(Suffix(name)) in [".png", ".jpg", ".jpeg", ".gif", ".bmp"]
  }

  /** The document part of an image name: the file stem with spaces turned into underscores and colons dropped. */
  function DocName(docStem: string): string {
    ReplaceAll(ReplaceAll(docStem, " ", "_"), ":", "")
  }

  /** The document part of an image name holds no space and no colon. */
  lemma DocNameClean(docStem: string)
    ensures ' ' !in DocName(docStem) && ':' !in DocName(docStem)
  {
    var once := ReplaceAll(docStem, " ", "_");
    if ' ' in DocName(docStem) {
      ReplaceCharMembership(once, ':', "", ' ');
      ReplaceCharMembership(docStem, ' ', "_", ' ');
      assert false;
    }
    if ':' in DocName(docStem) {
      ReplaceCharMembership(once, ':', "", ':');
      assert false;
    }
  }

  /** Python's `s[:n]`. */
  function Take(s: string, n: nat): (r: string)
    ensures |r| == if |s| <= n then |s| else n
    ensures r == s[..|r|]
  {
    if |s| <= n then s else s[..n]
  }

  /** The name an image is copied under: document name, image stem, first 8 digest characters, original suffix. */
  function NewImageName(docStem: string, f: MediaFile, digest: seq<bv8> -> string): string {
    DocName(docStem) + "_" + Stem(f.name) + "_" + Take(digest(f.bytes), 8) + Suffix(f.name)
  }

  /** The new name keeps the image's suffix, so it is again a name of the copied kinds. */
  lemma NewImageNameKeepsSuffix(docStem: string, f: MediaFile, digest: seq<bv8> -> string)
    requires IsImageName(f.name)
    ensures IsImageName(NewImageName(docStem, f, digest))
  {
    var sfx := Suffix(f.name);
    var n := NewImageName(docStem, f, digest);
    StemSuffixSplit(f.name);
    var i := LastIndexOf(n, '.');
    var front := DocName(docStem) + "_" + Stem(f.name) + "_" + Take(digest(f.bytes), 8);
    assert n == front + sfx;
    assert n[|front|] == '.';
    forall k | |front| < k < |n| ensures n[k] != '.' {
      assert n[k] == sfx[k - |front|];
    }
    assert i == |front|;
    assert n[i..] == sfx;
  }

  /** The image-name mapping after the media files, in directory order: each copied file's name to its new name. */
  function ImageMapping(docStem: string, media: seq<MediaFile>, digest: seq<bv8> -> string): map<string, string>
    decreases |media|
  {
    if media == [] then map[]
    else
      var before := ImageMapping(docStem, media[..|media| - 1], digest);
      var f := media[|media| - 1];
      if IsImageName(f.name) then before[f.name := NewImageName(docStem, f, digest)] else before
  }

  /** Directory entries have distinct names. */
  predicate DistinctNames(media: seq<MediaFile>) {
    forall i, j :: 0 <= i < j < |media| ==> media[i].name != media[j].name
  }

  /** The mapping holds exactly the image-named files. */
  lemma {:induction false} ImageMappingKeys(docStem: string, media: seq<MediaFile>, digest: seq<bv8> -> string, name: string)
    ensures name in ImageMapping(docStem, media, digest)
            <==> exists k :: 0 <= k < |media| && media[k].name == name && IsImageName(name)
    decreases |media|
  {
    if media != [] {
      var init := media[..|media| - 1];
      var f := media[|media| - 1];
      ImageMappingKeys(docStem, init, digest, name);
      if name in ImageMapping(docStem, media, digest) && name != f.name {
        var k :| 0 <= k < |init| && init[k].name == name && IsImageName(name);
        assert media[k] == init[k];
      }
      if exists k :: 0 <= k < |media| && media[k].name == name && IsImageName(name) {
        var k :| 0 <= k < |media| && media[k].name == name && IsImageName(name);
        if k < |init| {
          assert init[k] == media[k];
        }
      }
    }
  }

  /** With distinct names, each image-named file is mapped to its own new name, whatever the directory order. */
  lemma {:induction false} ImageMappingValue(docStem: string, media: seq<MediaFile>, digest: seq<bv8> -> string, k: int)
    requires DistinctNames(media)
    requires 0 <= k < |media| && IsImageName(media[k].name)
    ensures media[k].name in ImageMapping(docStem, media, digest)
    ensures ImageMapping(docStem, media, digest)[media[k].name] == NewImageName(docStem, media[k], digest)
    decreases |media|
  {
    var init := media[..|media| - 1];
    if k < |init| {
      assert DistinctNames(init) by {
        forall i, j | 0 <= i < j < |init| ensures init[i].name != init[j].name {
          assert init[i] == media[i] && init[j] == media[j];
        }
      }
      assert init[k] == media[k];
      ImageMappingValue(docStem, init, digest, k);
      assert media[k].name != media[|media| - 1].name;
    }
  }

  /** Python's `os.path.basename`: what follows the last '/'. */
  function BaseName(path: string): (r: string)
    ensures forall k :: 0 <= k < |r| ==> r[k] != '/'
  {
    path[LastIndexOf(path, '/') + 1..]
  }

  /** A relationship that resolves to a copied image: its rId and the new name, when it has one. */
  function ResolveRel(rel: Relationship, mapping: map<string, string>): Option<string>
    requires rel.target.Some?
  {
    var t := rel.target.value;
    if Contains(rel.relType, "image") && StartsWith(t, "media/") && BaseName(t) in mapping
    then Some(mapping[BaseName(t)])
    else None
  }

  /** An image relationship without a `Target` is where reading the relationships fails. */
  predicate Fails(rel: Relationship) {
    Contains(rel.relType, "image") && rel.target.None?
  }

  /**
    The rId table after the relationships, in order: None when an image
    relationship has no `Target`, which the source does not survive; a later
    relationship with the same Id overrides an earlier one.
   */
  function RidTable(rels: seq<Relationship>, mapping: map<string, string>): Option<map<string, string>>
    decreases |rels|
  {
    if rels == [] then Some(map[])
    else
      var before := RidTable(rels[..|rels| - 1], mapping);
      var rel := rels[|rels| - 1];
      if before.None? || Fails(rel) then None
      else if rel.target.Some? && ResolveRel(rel, mapping).Some?
      then Some(before.value[rel.id := ResolveRel(rel, mapping).value])
      else before
  }

  /** The table exists exactly when no image relationship lacks a target. */
  lemma {:induction false} RidTableNoneIff(rels: seq<Relationship>, mapping: map<string, string>)
    ensures RidTable(rels, mapping).None? <==> exists k :: 0 <= k < |rels| && Fails(rels[k])
    decreases |rels|
  {
    if rels != [] {
      var init := rels[..|rels| - 1];
      RidTableNoneIff(init, mapping);
      if exists k :: 0 <= k < |rels| && Fails(rels[k]) {
        var k :| 0 <= k < |rels| && Fails(rels[k]);
        if k < |init| {
          assert Fails(init[k]);
        }
      }
      if exists k :: 0 <= k < |init| && Fails(init[k]) {
        var k :| 0 <= k < |init| && Fails(init[k]);
        assert rels[k] == init[k];
      }
    }
  }

  /** Every name in the table is a new image name. */
  lemma {:induction false} RidTableValues(rels: seq<Relationship>, mapping: map<string, string>)
    ensures RidTable(rels, mapping).Some? ==> RidTable(rels, mapping).value.Values <= mapping.Values
    decreases |rels|
  {
    if rels != [] {
      RidTableValues(rels[..|rels| - 1], mapping);
    }
  }

  /** Every rId in the table came from a relationship that resolves to a copied image. */
  lemma {:induction false} RidTableKey(rels: seq<Relationship>, mapping: map<string, string>, id: string)
    requires RidTable(rels, mapping).Some? && id in RidTable(rels, mapping).value
    ensures exists k :: 0 <= k < |rels| && rels[k].id == id && rels[k].target.Some? && ResolveRel(rels[k], mapping).Some?
    decreases |rels|
  {
    var init := rels[..|rels| - 1];
    var rel := rels[|rels| - 1];
    var before := RidTable(init, mapping);
    var added := rel.target.Some? && ResolveRel(rel, mapping).Some?;
    assert RidTable(rels, mapping).value == if added then before.value[rel.id := ResolveRel(rel, mapping).value] else before.value;
    if !(added && id == rel.id) {
      RidTableKey(init, mapping, id);
      var k :| 0 <= k < |init| && init[k].id == id && init[k].target.Some? && ResolveRel(init[k], mapping).Some?;
      assert rels[k] == init[k];
    }
  }
}
