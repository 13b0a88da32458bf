/**
 The vendored-tree check: the tree on disk is upstream minus the declared omissions, with one
 file changed by one declared patch, plus pinned generated files.
 */
module VendorTree {
  import opened Wrappers
  import opened TextLines
  import opened UnifiedPatch
  import opened PatchTexts
  import opened PatchSources

  type Tree = map<string, Bytes>

  /** Digests are compared as lower-case text. */
  datatype Manifest = Manifest(
    omitted: set<string>,
    generated: map<string, string>,
    deltaPath: string,
    upstreamDigest: string,
    vendoredDigest: string,
    patchDigest: string)

  function Kept(m: Manifest, upstream: Tree): set<string> {
    upstream.Keys - m.omitted
  }

  function Changed(m: Manifest, upstream: Tree, vendor: Tree): set<string> {
    set path | path in Kept(m, upstream) && path in vendor && upstream[path] != vendor[path]
  }

  predicate PathSetsMatch(m: Manifest, upstream: Tree, vendor: Tree) {
    && Kept(m, upstream) - vendor.Keys == {}
    && vendor.Keys - Kept(m, upstream) - m.generated.Keys == {}
    && m.omitted * vendor.Keys == {}
    && m.omitted - upstream.Keys == {}
  }

  predicate GeneratedPinned(m: Manifest, vendor: Tree, digest: Bytes -> string) {
    forall path :: path in m.generated ==> path in vendor && digest(vendor[path]) == m.generated[path]
  }

  /** The checks of the verifier, in its order; the patch runs only once its inputs are pinned. */
  method VerifyTree(m: Manifest, upstream: Tree, vendor: Tree, patch: Bytes, digest: Bytes -> string, codec: Codec)
    returns (accepted: bool)
    ensures accepted <==> Accepts(m, upstream, vendor, patch, digest, codec)
  {
    hide PatchedBytes, PathSetsMatch, Changed;
    if !PathSetsMatch(m, upstream, vendor) || !GeneratedPinned(m, vendor, digest) {
      if GeneratedPinned(m, vendor, digest) {
        PathSetsMean(m, upstream, vendor);
      }
      return false;
    }
    PathSetsMean(m, upstream, vendor);
    ChangedMeans(m, upstream, vendor);
    if Changed(m, upstream, vendor) != {m.deltaPath} {
      return false;
    }
    var before, after := upstream[m.deltaPath], vendor[m.deltaPath];
    if digest(before) != m.upstreamDigest || digest(after) != m.vendoredDigest || digest(patch) != m.patchDigest {
      return false;
    }
    var applied := ApplySingleFilePatch(codec, before, patch, m.deltaPath);
    return applied.Ok? && applied.value == after;
  }

  lemma PathSetsMean(m: Manifest, upstream: Tree, vendor: Tree)
    requires m.generated.Keys <= vendor.Keys
    ensures PathSetsMatch(m, upstream, vendor) <==>
              && m.omitted <= upstream.Keys
              && m.omitted !! vendor.Keys
              && vendor.Keys == Kept(m, upstream) + m.generated.Keys
  {
    if PathSetsMatch(m, upstream, vendor) {
      forall path | path in Kept(m, upstream) ensures path in vendor.Keys {
        assert path !in Kept(m, upstream) - vendor.Keys;
      }
      forall path | path in vendor.Keys ensures path in Kept(m, upstream) + m.generated.Keys {
        assert path !in vendor.Keys - Kept(m, upstream) - m.generated.Keys;
      }
      forall path | path in m.omitted ensures path in upstream.Keys {
        assert path !in m.omitted - upstream.Keys;
      }
    }
  }

  lemma ChangedMeans(m: Manifest, upstream: Tree, vendor: Tree)
    requires Kept(m, upstream) <= vendor.Keys
    ensures Changed(m, upstream, vendor) == {m.deltaPath} <==>
              && m.deltaPath in Kept(m, upstream)
              && (forall path :: path in Kept(m, upstream) && path != m.deltaPath ==> vendor[path] == upstream[path])
              && upstream[m.deltaPath] != vendor[m.deltaPath]
  {
    forall path | path in Kept(m, upstream)
      ensures upstream[path] != vendor[path] <==> path in Changed(m, upstream, vendor)
    {
    }
    if Changed(m, upstream, vendor) == {m.deltaPath} {
      assert m.deltaPath in Changed(m, upstream, vendor);
    }
  }

  /** What acceptance means, as a statement about the tree. */
  predicate Accepts(m: Manifest, upstream: Tree, vendor: Tree, patch: Bytes, digest: Bytes -> string, codec: Codec) {
    && m.omitted <= upstream.Keys
    && m.omitted !! vendor.Keys
    && vendor.Keys == Kept(m, upstream) + m.generated.Keys
    && GeneratedPinned(m, vendor, digest)
    && m.deltaPath in Kept(m, upstream)
    && (forall path :: path in Kept(m, upstream) && path != m.deltaPath ==> vendor[path] == upstream[path])
    && upstream[m.deltaPath] != vendor[m.deltaPath]
    && digest(upstream[m.deltaPath]) == m.upstreamDigest
    && digest(vendor[m.deltaPath]) == m.vendoredDigest
    && digest(patch) == m.patchDigest
    && PatchedBytes(codec, upstream[m.deltaPath], patch, m.deltaPath) == Some(vendor[m.deltaPath])
  }

  /** Acceptance, path by path. */
  lemma AcceptsPathByPath(m: Manifest, upstream: Tree, vendor: Tree, patch: Bytes, digest: Bytes -> string, codec: Codec)
    ensures Accepts(m, upstream, vendor, patch, digest, codec) <==>
              && (forall path :: path in m.omitted ==> path in upstream && path !in vendor)
              && (forall path :: path in vendor <==> (path in upstream && path !in m.omitted) || path in m.generated)
              && (forall path :: path in m.generated ==> path in vendor && digest(vendor[path]) == m.generated[path])
              && m.deltaPath in upstream && m.deltaPath in vendor && m.deltaPath !in m.omitted
              && (forall path :: path in upstream && path !in m.omitted ==>
                    path in vendor && (vendor[path] == upstream[path] <==> path != m.deltaPath))
              && digest(upstream[m.deltaPath]) == m.upstreamDigest
              && digest(vendor[m.deltaPath]) == m.vendoredDigest
              && digest(patch) == m.patchDigest
              && PatchedBytes(codec, upstream[m.deltaPath], patch, m.deltaPath) == Some(vendor[m.deltaPath])
  {
    hide PatchedBytes;
    if forall path :: path in vendor <==> (path in upstream && path !in m.omitted) || path in m.generated {
      assert vendor.Keys == Kept(m, upstream) + m.generated.Keys;
    }
  }

  predicate Injective(digest: Bytes -> string, contents: set<Bytes>) {
    forall a, b :: a in contents && b in contents && digest(a) == digest(b) ==> a == b
  }

  /**
   Where the digests of the contents at hand do not collide, a manifest and an upstream leave
   room for one tree and one patch only.
   */
  lemma ManifestDeterminesTree(m: Manifest, upstream: Tree, vendor: Tree, other: Tree, patch: Bytes, otherPatch: Bytes,
                               digest: Bytes -> string, codec: Codec)
    requires Accepts(m, upstream, vendor, patch, digest, codec)
    requires Accepts(m, upstream, other, otherPatch, digest, codec)
    requires Injective(digest, vendor.Values + other.Values + {patch, otherPatch})
    ensures vendor == other && patch == otherPatch
  {
    hide PatchedBytes;
    forall path | path in vendor.Keys ensures path in other && vendor[path] == other[path] {
      assert vendor[path] in vendor.Values;
      if path in m.generated {
        assert other[path] in other.Values;
      }
    }
    assert vendor.Keys == other.Keys;
  }

  /** The declared patch left clean seams in the changed file. */
  predicate DeltaIsClean(m: Manifest, upstream: Tree, patch: Bytes, codec: Codec)
    requires m.deltaPath in upstream
  {
    && codec.decode(upstream[m.deltaPath]).Some? && codec.decode(patch).Some?
    && PatchesCleanly(codec.decode(upstream[m.deltaPath]).value, codec.decode(patch).value)
  }

  /** The patch file with its signs and counts exchanged. */
  function ReversedBytes(codec: Codec, patch: Bytes): Bytes
    requires codec.decode(patch).Some? && HunkOf(SplitLines(codec.decode(patch).value)).Some?
  {
    codec.encode(ReversedText(codec.decode(patch).value))
  }

  /**
   An accepted tree holds every kept upstream file: all but the changed one as they are, and
   that one behind the reversed patch exactly when the patch left clean seams.
   */
  lemma AcceptedTreeHoldsUpstream(m: Manifest, upstream: Tree, vendor: Tree, patch: Bytes, digest: Bytes -> string,
                                  codec: Codec)
    requires Accepts(m, upstream, vendor, patch, digest, codec) && Strict(codec)
    ensures forall path :: path in Kept(m, upstream) && path != m.deltaPath ==> vendor[path] == upstream[path]
    ensures codec.decode(patch).Some? && HunkOf(SplitLines(codec.decode(patch).value)).Some?
    ensures PatchedBytes(codec, vendor[m.deltaPath], ReversedBytes(codec, patch), m.deltaPath) == Some(upstream[m.deltaPath])
            <==> DeltaIsClean(m, upstream, patch, codec)
  {
    hide Patched, HunkOf, PatchesCleanly, ReversedText, GeneratedPinned;
    var before, after := upstream[m.deltaPath], vendor[m.deltaPath];
    var text, patchText := codec.decode(before).value, codec.decode(patch).value;
    ReversalRestoresExactlyWhenSeamsAreClean(text, patchText, m.deltaPath);
    var result := Patched(text, patchText, m.deltaPath).value;
    assert codec.decode(after) == Some(result);
    assert codec.decode(ReversedBytes(codec, patch)) == Some(ReversedText(patchText));
    var back := Patched(result, ReversedText(patchText), m.deltaPath);
    assert codec.encode(text) == before;
    if back.Some? && codec.encode(back.value) == before {
      assert codec.decode(before) == Some(back.value);
    }
  }

  /** The line in front of the declared patch's hunk in the changed file. */
  function DeltaFront(m: Manifest, upstream: Tree, patch: Bytes, codec: Codec): Option<Line>
    requires m.deltaPath in upstream && codec.decode(upstream[m.deltaPath]).Some? && codec.decode(patch).Some?
    requires HunkOf(SplitLines(codec.decode(patch).value)).Some?
  {
    LineBefore(codec.decode(upstream[m.deltaPath]).value, codec.decode(patch).value)
  }

  /**
   Two upstreams behind one accepted tree agree on every kept file but perhaps the changed one,
   and there if and only if they have the same line in front of the hunk.
   */
  lemma AcceptedTreeDeterminesUpstream(m: Manifest, upstream: Tree, other: Tree, vendor: Tree, patch: Bytes,
                                       digest: Bytes -> string, codec: Codec)
    requires Accepts(m, upstream, vendor, patch, digest, codec) && Accepts(m, other, vendor, patch, digest, codec)
    requires Kept(m, upstream) == Kept(m, other) && Strict(codec)
    ensures forall path :: path in Kept(m, upstream) && path != m.deltaPath ==> upstream[path] == other[path]
    ensures codec.decode(patch).Some? && HunkOf(SplitLines(codec.decode(patch).value)).Some?
    ensures codec.decode(upstream[m.deltaPath]).Some? && codec.decode(other[m.deltaPath]).Some?
    ensures upstream[m.deltaPath] == other[m.deltaPath] <==>
              DeltaFront(m, upstream, patch, codec) == DeltaFront(m, other, patch, codec)
  {
    hide Patched, HunkOf, LineBefore, GeneratedPinned, SplitLines;
    var before, otherBefore, after := upstream[m.deltaPath], other[m.deltaPath], vendor[m.deltaPath];
    var text, otherText, patchText := codec.decode(before).value, codec.decode(otherBefore).value, codec.decode(patch).value;
    var result, otherResult := Patched(text, patchText, m.deltaPath), Patched(otherText, patchText, m.deltaPath);
    assert codec.decode(after) == result && codec.decode(after) == otherResult;
    SameSourceExactlyWhen(text, otherText, patchText, m.deltaPath);
    assert codec.encode(text) == before && codec.encode(otherText) == otherBefore;
  }

  /** If the patch was clean on the first, the two agree exactly when it was on the second too. */
  lemma CleanDeltaDeterminesUpstream(m: Manifest, upstream: Tree, other: Tree, vendor: Tree, patch: Bytes,
                                     digest: Bytes -> string, codec: Codec)
    requires Accepts(m, upstream, vendor, patch, digest, codec) && Accepts(m, other, vendor, patch, digest, codec)
    requires Kept(m, upstream) == Kept(m, other) && Strict(codec) && DeltaIsClean(m, upstream, patch, codec)
    ensures upstream[m.deltaPath] == other[m.deltaPath] <==> DeltaIsClean(m, other, patch, codec)
  {
    hide PatchedBytes, HunkOf, PatchesCleanly, ReversedBytes, GeneratedPinned, Strict;
    AcceptedTreeHoldsUpstream(m, upstream, vendor, patch, digest, codec);
    AcceptedTreeHoldsUpstream(m, other, vendor, patch, digest, codec);
  }
}
