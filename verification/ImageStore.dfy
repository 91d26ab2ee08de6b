/** The chat gateway's image store: metadata by image id, an index from content hash to
    image ids, and one blob for each indexed hash. */
module ImageStore {
  import opened Outcomes
  import opened ChatErrors
  import opened Digraph

  type Bytes = seq<bv8>

  datatype Meta = Meta(mediaType: string, size: nat, sha256: string)

  /** No two contents share a hash. */
  ghost predicate CollisionFree(sha: Bytes -> string) {
    forall a, b :: sha(a) == sha(b) ==> a == b
  }

  /** `list.remove`: without the first occurrence of `x`. */
  function RemoveFirst(s: seq<string>, x: string): seq<string> {
    if s == [] then []
    else if s[0] == x then s[1..]
    else [s[0]] + RemoveFirst(s[1..], x)
  }

  lemma {:induction false} RemoveFirstFacts(s: seq<string>, x: string)
    requires Distinct(s)
    ensures Distinct(RemoveFirst(s, x))
    ensures forall y :: y in RemoveFirst(s, x) <==> y in s && y != x
  {
    if s != [] {
      assert forall i, j :: 0 <= i < j < |s[1..]| ==> s[1..][i] == s[i + 1] && s[1..][j] == s[j + 1];
      RemoveFirstFacts(s[1..], x);
      assert s == [s[0]] + s[1..];
      assert s[0] !in s[1..];
    }
  }

  /** Some live image has this hash. */
  ghost predicate Shows(images: map<string, Meta>, digest: string) {
    exists id :: id in images && images[id].sha256 == digest
  }

  /** `ids` lists the live images with one hash, each once, and there is one. */
  ghost predicate Lists(ids: seq<string>, images: map<string, Meta>, digest: string) {
    && ids != []
    && Distinct(ids)
    && forall id :: id in ids <==> id in images && images[id].sha256 == digest
  }

  /** The hashes indexed are those of the live images, and each entry lists its images. */
  ghost predicate Indexed(images: map<string, Meta>, index: map<string, seq<string>>) {
    && (forall id :: id in images ==> images[id].sha256 in index)
    && (forall s :: s in index ==> Lists(index[s], images, s))
  }

  lemma IndexedShows(images: map<string, Meta>, index: map<string, seq<string>>, digest: string)
    requires Indexed(images, index)
    ensures digest in index <==> Shows(images, digest)
  {
    if digest in index {
      assert index[digest][0] in index[digest];
    }
  }

  /** Only live images are listed. */
  lemma NotListed(images: map<string, Meta>, index: map<string, seq<string>>, id: string, digest: string)
    requires Indexed(images, index) && id !in images
    ensures digest in index ==> id !in index[digest]
  {
    assert digest in index ==> Lists(index[digest], images, digest);
  }

  lemma AddIndexed(images: map<string, Meta>, index: map<string, seq<string>>, id: string, meta: Meta, entry: seq<string>)
    requires Indexed(images, index) && id !in images
    requires entry == (if meta.sha256 in index then index[meta.sha256] else []) + [id]
    ensures Indexed(images[id := meta], index[meta.sha256 := entry])
  {
    var images', index' := images[id := meta], index[meta.sha256 := entry];
    forall s | s in index' ensures Lists(index'[s], images', s) {
      assert s in index ==> Lists(index[s], images, s);
      assert index'[s] == if s == meta.sha256 then entry else index[s];
    }
  }

  lemma DropIndexed(images: map<string, Meta>, index: map<string, seq<string>>, id: string, rest: seq<string>)
    requires Indexed(images, index) && id in images
    requires rest == RemoveFirst(index[images[id].sha256], id)
    ensures Indexed(images - {id}, if rest == [] then index - {images[id].sha256} else index[images[id].sha256 := rest])
  {
    var digest := images[id].sha256;
    assert Lists(index[digest], images, digest);
    RemoveFirstFacts(index[digest], id);
    var images' := images - {id};
    var index' := if rest == [] then index - {digest} else index[digest := rest];
    forall s | s in index' ensures Lists(index'[s], images', s) {
      assert Lists(index[s], images, s);
    }
    forall other | other in images' ensures images'[other].sha256 in index' {
      if images[other].sha256 == digest {
        assert other in rest;
      }
    }
  }

  /** A blob is kept exactly for each indexed hash, and it hashes to that. */
  ghost predicate Kept(index: map<string, seq<string>>, blobs: map<string, Bytes>, sha: Bytes -> string) {
    && blobs.Keys == index.Keys
    && forall s :: s in blobs ==> sha(blobs[s]) == s
  }

  /** The metadata of each live image describes the content it was uploaded with. */
  ghost predicate Described(images: map<string, Meta>, uploaded: map<string, Bytes>, sha: Bytes -> string) {
    && uploaded.Keys == images.Keys
    && forall id :: id in images ==> images[id].sha256 == sha(uploaded[id]) && images[id].size == |uploaded[id]|
  }

  /** Writing the content under its hash unless the hash is stored keeps every blob right. */
  lemma KeptAfterWrite(index: map<string, seq<string>>, index': map<string, seq<string>>, blobs: map<string, Bytes>,
                       sha: Bytes -> string, content: Bytes)
    requires Kept(index, blobs, sha) && index'.Keys == index.Keys + {sha(content)}
    ensures Kept(index', if sha(content) in blobs then blobs else blobs[sha(content) := content], sha)
  {
  }

  lemma DescribedAfterPut(images: map<string, Meta>, uploaded: map<string, Bytes>, sha: Bytes -> string,
                          id: string, mediaType: string, content: Bytes)
    requires Described(images, uploaded, sha)
    ensures Described(images[id := Meta(mediaType, |content|, sha(content))], uploaded[id := content], sha)
  {
  }

  /** Removing the blob of a hash that left the index keeps the rest right. */
  lemma KeptAfterDrop(index: map<string, seq<string>>, index': map<string, seq<string>>, blobs: map<string, Bytes>,
                      sha: Bytes -> string, digest: string)
    requires Kept(index, blobs, sha) && digest in index && index'.Keys + {digest} == index.Keys
    ensures digest in blobs
    ensures Kept(index', if digest in index' then blobs else blobs - {digest}, sha)
  {
    assert digest in blobs.Keys;
    if digest in index' {
      assert index'.Keys == index.Keys;
    }
  }

  lemma DescribedAfterDrop(images: map<string, Meta>, uploaded: map<string, Bytes>, sha: Bytes -> string, id: string)
    requires Described(images, uploaded, sha)
    ensures Described(images - {id}, uploaded - {id}, sha)
  {
  }

  class ImageStore {
    const sha: Bytes -> string
    var images: map<string, Meta>
    var shaIndex: map<string, seq<string>>
    var blobs: map<string, Bytes>
    /** The content each live image was uploaded with. */
    ghost var uploaded: map<string, Bytes>

    constructor (sha: Bytes -> string)
      ensures Valid() && this.sha == sha
      ensures images == map[] && shaIndex == map[] && blobs == map[] && uploaded == map[]
    {
      this.sha := sha;
      images, shaIndex, blobs, uploaded := map[], map[], map[], map[];
    }

    ghost predicate Valid()
      reads this
    {
      && Indexed(images, shaIndex)
      && Kept(shaIndex, blobs, sha)
      && Described(images, uploaded, sha)
    }

    method WriteBytesIfAbsent(digest: string, content: Bytes) returns (written: bool)
      modifies this`blobs
      ensures written <==> digest !in old(blobs)
      ensures blobs == if written then old(blobs)[digest := content] else old(blobs)
    {
      written := digest !in blobs;
      if written {
        blobs := blobs[digest := content];
      }
    }

    method PutMetadata(id: string, meta: Meta) returns (r: Result<(), StoreError>)
      requires Indexed(images, shaIndex)
      modifies this`images, this`shaIndex
      ensures Indexed(images, shaIndex)
      ensures r.Ok? <==> id !in old(images)
      ensures r.Err? ==> r.error == Conflict && images == old(images) && shaIndex == old(shaIndex)
      ensures r.Ok? ==> images == old(images)[id := meta]
      ensures r.Ok? ==> shaIndex.Keys == old(shaIndex).Keys + {meta.sha256}
    {
      if id in images {
        return Err(Conflict);
      }
      ghost var entry := (if meta.sha256 in shaIndex then shaIndex[meta.sha256] else []) + [id];
      AddIndexed(images, shaIndex, id, meta, entry);
      NotListed(images, shaIndex, id, meta.sha256);
      images := images[id := meta];
      if meta.sha256 !in shaIndex {
        shaIndex := shaIndex[meta.sha256 := [id]];
        assert entry == [id];
      } else if id !in shaIndex[meta.sha256] {
        shaIndex := shaIndex[meta.sha256 := shaIndex[meta.sha256] + [id]];
      }
      assert shaIndex == old(shaIndex)[meta.sha256 := entry];
      return Ok(());
    }

    /** Stores the content once for its hash, then the metadata. The content is written
        before the id is checked, so with a taken id the store stays consistent exactly
        when the content's hash was indexed already. */
    method Upload(id: string, mediaType: string, content: Bytes) returns (r: Result<Meta, StoreError>)
      requires Valid()
      modifies this
      ensures r.Ok? <==> id !in old(images)
      ensures r.Ok? ==> r.value == Meta(mediaType, |content|, sha(content))
      ensures r.Ok? ==> images == old(images)[id := r.value] && uploaded == old(uploaded)[id := content]
      ensures r.Err? ==> r.error == Conflict && images == old(images) && shaIndex == old(shaIndex) && uploaded == old(uploaded)
      ensures Valid() <==> r.Ok? || Shows(old(images), sha(content))
    {
      var digest := sha(content);
      IndexedShows(images, shaIndex, digest);
      var written := WriteBytesIfAbsent(digest, content);
      var meta := Meta(mediaType, |content|, digest);
      var put := PutMetadata(id, meta);
      if put.Err? {
        assert Kept(shaIndex, blobs, sha) <==> digest in shaIndex by {
          assert digest in blobs.Keys;
        }
        return Err(put.error);
      }
      KeptAfterWrite(old(shaIndex), shaIndex, old(blobs), sha, content);
      DescribedAfterPut(old(images), uploaded, sha, id, mediaType, content);
      uploaded := uploaded[id := content];
      return Ok(meta);
    }

    /** What is read for a live image is what was uploaded under its id. */
    method Read(id: string) returns (r: Result<Bytes, StoreError>)
      requires Valid() && CollisionFree(sha)
      ensures r.Ok? <==> id in images
      ensures r.Ok? ==> r.value == uploaded[id]
      ensures r.Err? ==> r.error == NotFound
    {
      if id !in images {
        return Err(NotFound);
      }
      var digest := images[id].sha256;
      if digest !in blobs {
        return Err(NotFound);
      }
      return Ok(blobs[digest]);
    }

    method DeleteMetadata(id: string)
      requires Indexed(images, shaIndex) && id in images
      modifies this`images, this`shaIndex
      ensures images == old(images) - {id}
      ensures Indexed(images, shaIndex)
      ensures shaIndex.Keys + {old(images)[id].sha256} == old(shaIndex).Keys
    {
      var digest := images[id].sha256;
      var rest := RemoveFirst(shaIndex[digest], id);
      DropIndexed(images, shaIndex, id, rest);
      images := images - {id};
      if rest == [] {
        shaIndex := shaIndex - {digest};
      } else {
        shaIndex := shaIndex[digest := rest];
      }
    }

    /** Removes the blob when no image with its hash is left in the index. */
    method DeleteBytesIfUnreferenced(digest: string) returns (removed: bool)
      requires Indexed(images, shaIndex)
      modifies this`blobs
      ensures removed <==> digest in old(blobs) && !Shows(images, digest)
      ensures blobs == if removed then old(blobs) - {digest} else old(blobs)
    {
      IndexedShows(images, shaIndex, digest);
      if digest in shaIndex {
        assert Lists(shaIndex[digest], images, digest);
        return false;
      }
      removed := digest in blobs;
      blobs := blobs - {digest};
      assert !removed ==> blobs == old(blobs);
    }

    /** Removes an image, and its blob with the last image that has the same content. */
    method Remove(id: string) returns (r: Result<Meta, StoreError>)
      requires Valid()
      modifies this
      ensures Valid()
      ensures r.Ok? <==> id in old(images)
      ensures r.Err? ==> r.error == NotFound
      ensures r.Err? ==> images == old(images) && shaIndex == old(shaIndex) && blobs == old(blobs) && uploaded == old(uploaded)
      ensures r.Ok? ==> r.value == old(images)[id] && images == old(images) - {id} && uploaded == old(uploaded) - {id}
      ensures r.Ok? ==> blobs == if Shows(images, r.value.sha256) then old(blobs) else old(blobs) - {r.value.sha256}
    {
      if id !in images {
        return Err(NotFound);
      }
      var meta := images[id];
      DeleteMetadata(id);
      IndexedShows(images, shaIndex, meta.sha256);
      var removed := DeleteBytesIfUnreferenced(meta.sha256);
      uploaded := uploaded - {id};
      RemovedValid(old(images), old(shaIndex), old(blobs), old(uploaded), sha, id, shaIndex);
      return Ok(meta);
    }
  }

  /** Without the image, and without its blob if its hash left the index, all is right again. */
  lemma RemovedValid(images: map<string, Meta>, index: map<string, seq<string>>, blobs: map<string, Bytes>,
                     uploaded: map<string, Bytes>, sha: Bytes -> string, id: string, index': map<string, seq<string>>)
    requires Indexed(images, index) && Kept(index, blobs, sha) && Described(images, uploaded, sha)
    requires id in images && index'.Keys + {images[id].sha256} == index.Keys
    ensures images[id].sha256 in blobs
    ensures Kept(index', if images[id].sha256 in index' then blobs else blobs - {images[id].sha256}, sha)
    ensures Described(images - {id}, uploaded - {id}, sha)
  {
    DescribedAfterDrop(images, uploaded, sha, id);
    assert images[id].sha256 in index;
    KeptAfterDrop(index, index', blobs, sha, images[id].sha256);
  }
}
