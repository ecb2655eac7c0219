/**
 * The saved-version log of hooks/use-image-history.ts. Each entry records an
 * image version: its id, the ids of its image and thumbnail blobs, its
 * annotations and when it was last saved. The log is kept newest-first by
 * construction (new entries go to the front) and trimmed to 100 entries.
 *
 * IndexedDB is a set of blob ids, the thumbnail cache is a map from
 * thumbnail ids to object URLs, and the active entry is an optional id.
 * The asynchronous blob deletions and cache updates are applied at once.
 * Fresh ids (`Date.now()` plus a random suffix), the current time, the object
 * URLs the browser hands out, whether an image decodes and whether its
 * thumbnail could be made are parameters.
 */
module VersionStore {

  import opened Wrappers
  import opened Annotations

  const MaxHistoryItems: nat := 100

  datatype Entry = Entry(
    id: string,
    originalImageName: Option<string>,
    imageId: string,
    thumbnailId: string,
    annotations: seq<Annotation>,
    lastModified: int)

  datatype Store = Store(
    log: seq<Entry>,
    blobs: set<string>,
    active: Option<string>,
    thumbs: map<string, string>)

  /** JavaScript truthiness of an optional string. */
  predicate Truthy(s: Option<string>)
  {
    s.Some? && s.value != ""
  }

  function ImageBlobId(id: string): string { "img_" + id }

  function ThumbBlobId(id: string): string { "thumb_" + id }

  function Ids(log: seq<Entry>): set<string>
  {
    set i | 0 <= i < |log| :: log[i].id
  }

  function ImageIds(log: seq<Entry>): set<string>
  {
    set i | 0 <= i < |log| :: log[i].imageId
  }

  function ThumbIds(log: seq<Entry>): set<string>
  {
    set i | 0 <= i < |log| :: log[i].thumbnailId
  }

  /** The blobs the log refers to. */
  function BlobsOf(log: seq<Entry>): set<string>
  {
    ImageIds(log) + ThumbIds(log)
  }

  /** `log.findIndex(e => e.id === id)`, None for -1. */
  function FindIndex(log: seq<Entry>, id: string): (r: Option<nat>)
    ensures r.Some? ==> r.value < |log| && log[r.value].id == id
                        && forall j :: 0 <= j < r.value ==> log[j].id != id
    ensures r.None? ==> id !in Ids(log)
  {
    if |log| == 0 then None
    else if log[0].id == id then Some(0)
    else
      match FindIndex(log[1..], id)
      case Some(k) => Some(k + 1)
      case None =>
        assert forall j :: 1 <= j < |log| ==> log[j] == log[1..][j - 1];
        None
  }

  // ---------------------------------------------------------------------
  // Invariant
  // ---------------------------------------------------------------------

  predicate UniqueIds(log: seq<Entry>)
  {
    forall i, j :: 0 <= i < j < |log| ==> log[i].id != log[j].id
  }

  /** Every entry's blobs are named after the entry. */
  predicate Named(log: seq<Entry>)
  {
    forall i :: 0 <= i < |log| ==>
      log[i].imageId == ImageBlobId(log[i].id) && log[i].thumbnailId == ThumbBlobId(log[i].id)
  }

  /**
   * What the operations below maintain: entry ids are unique, blobs are
   * named after their entry, the blob table holds exactly the log's blobs,
   * the log has at most 100 entries, and the cache only has thumbnails of
   * logged entries.
   */
  predicate Valid(st: Store)
  {
    && UniqueIds(st.log)
    && Named(st.log)
    && st.blobs == BlobsOf(st.log)
    && |st.log| <= MaxHistoryItems
    && st.thumbs.Keys <= ThumbIds(st.log)
  }

  /** The empty store. */
  function Empty(): (st: Store)
    ensures Valid(st)
  {
    Store([], {}, None, map[])
  }

  lemma BlobIdsDistinct(a: string, b: string)
    ensures ImageBlobId(a) != ThumbBlobId(b)
    ensures ImageBlobId(a) == ImageBlobId(b) ==> a == b
    ensures ThumbBlobId(a) == ThumbBlobId(b) ==> a == b
  {
    assert ImageBlobId(a)[1] == 'm' && ThumbBlobId(b)[1] == 'h';
    if ImageBlobId(a) == ImageBlobId(b) {
      assert a == ImageBlobId(a)[4..] && b == ImageBlobId(b)[4..];
    }
    if ThumbBlobId(a) == ThumbBlobId(b) {
      assert a == ThumbBlobId(a)[6..] && b == ThumbBlobId(b)[6..];
    }
  }

  // ---------------------------------------------------------------------
  // Upsert
  // ---------------------------------------------------------------------

  /** The arguments of `addOrUpdateHistoryEntry`; the image is its file name. */
  datatype Request = Request(image: Option<string>, annotations: seq<Annotation>, existingId: Option<string>)

  datatype Outcome = Outcome(store: Store, result: Option<Entry>)

  predicate AnnotationOnly(req: Request)
  {
    req.image.None? && Truthy(req.existingId)
  }

  function Lookup(log: seq<Entry>, req: Request): Option<nat>
  {
    if Truthy(req.existingId) then FindIndex(log, req.existingId.value) else None
  }

  /** The new entry replaces the old one where it stands, or goes to the front. */
  function Place(log: seq<Entry>, idx: Option<nat>, e: Entry): (r: seq<Entry>)
    requires idx.Some? ==> idx.value < |log|
    ensures idx.Some? ==> |r| == |log| && r[idx.value] == e
                          && forall j :: 0 <= j < |log| && j != idx.value ==> r[j] == log[j]
    ensures idx.None? ==> |r| == |log| + 1 && r[0] == e && r[1..] == log
  {
    if idx.Some? then log[idx.value := e] else [e] + log
  }

  /** The `pop` loop's result: the first 100 entries. */
  function Kept(updated: seq<Entry>): seq<Entry>
  {
    if |updated| <= MaxHistoryItems then updated else updated[..MaxHistoryItems]
  }

  /** The entries the `pop` loop removes. */
  function Evicted(updated: seq<Entry>): seq<Entry>
  {
    if |updated| <= MaxHistoryItems then [] else updated[MaxHistoryItems..]
  }

  /** The pop loop itself: pops from the end until 100 remain, collecting what it pops. */
  method TrimLog(updated: seq<Entry>) returns (kept: seq<Entry>, pruned: seq<Entry>)
    ensures kept == Kept(updated)
    ensures |pruned| == |Evicted(updated)|
    ensures forall i :: 0 <= i < |pruned| ==> pruned[i] == updated[|updated| - 1 - i]
  {
    kept := updated;
    pruned := [];
    while |kept| > MaxHistoryItems
      invariant kept == updated[..|kept|]
      invariant |kept| >= if |updated| <= MaxHistoryItems then |updated| else MaxHistoryItems
      invariant |pruned| == |updated| - |kept|
      invariant forall i :: 0 <= i < |pruned| ==> pruned[i] == updated[|updated| - 1 - i]
    {
      pruned := pruned + [kept[|kept| - 1]];
      kept := kept[..|kept| - 1];
    }
  }

  /** `delete cache[key]` for every key in `ks`. */
  function Drop(m: map<string, string>, ks: set<string>): (r: map<string, string>)
    ensures r.Keys == m.Keys - ks
    ensures forall k :: k in r ==> r[k] == m[k]
  {
    map k | k in m && k !in ks :: m[k]
  }

  /** The old entry's blobs, each when its id is non-empty. */
  function OldBlobs(log: seq<Entry>, idx: Option<nat>): set<string>
    requires idx.Some? ==> idx.value < |log|
  {
    if idx.Some? then
      var prev := log[idx.value];
      (if prev.imageId != "" then {prev.imageId} else {}) + (if prev.thumbnailId != "" then {prev.thumbnailId} else {})
    else {}
  }

  /** The old entry's thumbnail id, when non-empty. */
  function OldThumb(log: seq<Entry>, idx: Option<nat>): set<string>
    requires idx.Some? ==> idx.value < |log|
  {
    if idx.Some? && log[idx.value].thumbnailId != "" then {log[idx.value].thumbnailId} else {}
  }

  /**
   * Blobs and cache after an image upload for `entryId` over the old entry at
   * `idx`, if any: the old blobs and cached thumbnail are deleted and
   * `img_<id>` is stored; `thumb` is the object URL of the thumbnail, or None
   * when `createThumbnail` rejects, in which case nothing more is stored.
   */
  function StoreImage(st: Store, idx: Option<nat>, entryId: string, thumb: Option<string>): Store
    requires idx.Some? ==> idx.value < |st.log|
  {
    var blobs := st.blobs - OldBlobs(st.log, idx) + {ImageBlobId(entryId)};
    var cache := Drop(st.thumbs, OldThumb(st.log, idx));
    match thumb
    case None => st.(blobs := blobs, thumbs := cache)
    case Some(url) => st.(blobs := blobs + {ThumbBlobId(entryId)}, thumbs := cache[ThumbBlobId(entryId) := url])
  }

  /**
   * `addOrUpdateHistoryEntry`. An annotation-only save whose annotations equal
   * the stored ones returns the stored entry and changes nothing. With an
   * image, the old entry's blobs are deleted and `img_<id>` is stored; if the
   * thumbnail cannot be made (`thumb` is None) the save gives None right
   * there, leaving the log as it was; otherwise `thumb_<id>` is stored and
   * cached. Without an image, a known entry keeps its blobs and name, and an
   * unknown or missing id gives None. The entry replaces the old one in place
   * or goes to the front, and the log is trimmed to 100 with the evicted
   * entries' blobs and thumbnails dropped.
   */
  function Upsert(st: Store, req: Request, freshId: string, now: int, thumb: Option<string>): Outcome
  {
    var idx := Lookup(st.log, req);
    if AnnotationOnly(req) && idx.Some? && st.log[idx.value].annotations == req.annotations then
      Outcome(st, Some(st.log[idx.value]))
    else if req.image.None? && idx.None? then
      Outcome(st, None)
    else
      var entryId := if Truthy(req.existingId) then req.existingId.value else freshId;
      var staged :=
        if req.image.Some? then StoreImage(st, idx, entryId, thumb) else st;
      if req.image.Some? && thumb.None? then
        Outcome(staged, None)
      else
        var e :=
          if req.image.Some? then
            Entry(entryId, req.image, ImageBlobId(entryId), ThumbBlobId(entryId), req.annotations, now)
          else
            var prev := st.log[idx.value];
            Entry(entryId, prev.originalImageName, prev.imageId, prev.thumbnailId, req.annotations, now);
        var updated := Place(st.log, idx, e);
        var gone := Evicted(updated);
        Outcome(Store(Kept(updated), staged.blobs - BlobsOf(gone), st.active, Drop(staged.thumbs, ThumbIds(gone))),
                Some(e))
  }

  /** An unchanged annotation-only save is a no-op that returns the stored entry. */
  lemma UpsertUnchanged(st: Store, req: Request, freshId: string, now: int, thumb: Option<string>, k: nat)
    requires AnnotationOnly(req) && k < |st.log| && st.log[k].id == req.existingId.value
    requires UniqueIds(st.log)
    requires st.log[k].annotations == req.annotations
    ensures Upsert(st, req, freshId, now, thumb) == Outcome(st, Some(st.log[k]))
  {
    var idx := FindIndex(st.log, req.existingId.value);
    assert idx.Some?;
    assert idx.value == k;
  }

  /** Without an image and without a known id nothing is saved. */
  lemma UpsertNothing(st: Store, req: Request, freshId: string, now: int, thumb: Option<string>)
    requires req.image.None?
    requires !Truthy(req.existingId) || req.existingId.value !in Ids(st.log)
    ensures Upsert(st, req, freshId, now, thumb) == Outcome(st, None)
  {
  }

  /** An annotation-only save to a known entry keeps its blobs and name, in place. */
  lemma UpsertAnnotationsOnly(st: Store, req: Request, freshId: string, now: int, thumb: Option<string>, k: nat)
    requires AnnotationOnly(req) && k < |st.log| && st.log[k].id == req.existingId.value
    requires UniqueIds(st.log) && |st.log| <= MaxHistoryItems
    requires st.log[k].annotations != req.annotations
    ensures var out := Upsert(st, req, freshId, now, thumb);
      && out.result == Some(Entry(st.log[k].id, st.log[k].originalImageName, st.log[k].imageId,
                                  st.log[k].thumbnailId, req.annotations, now))
      && out.store.log == st.log[k := out.result.value]
      && out.store.blobs == st.blobs && out.store.thumbs == st.thumbs
  {
    var idx := FindIndex(st.log, req.existingId.value);
    assert idx == Some(k);
  }

  /**
   * An upload stores `img_<id>` for the entry's id, which is the given id
   * when there is one and the fresh id otherwise. It saves an entry exactly
   * when the thumbnail is made; then `thumb_<id>` is stored and cached, a
   * logged entry with the given id is replaced at the same index, and an id
   * not in the log is put in front. A failed thumbnail leaves the log as it was.
   */
  lemma UpsertImage(st: Store, req: Request, freshId: string, now: int, thumb: Option<string>)
    requires req.image.Some?
    requires Valid(st)
    requires !Truthy(req.existingId) ==> freshId !in Ids(st.log)
    ensures var out := Upsert(st, req, freshId, now, thumb);
      var id := if Truthy(req.existingId) then req.existingId.value else freshId;
      && (out.result.Some? <==> thumb.Some?)
      && ImageBlobId(id) in out.store.blobs
      && (thumb.None? ==> out.store.log == st.log)
      && (thumb.Some? ==>
            && out.result.value.id == id
            && out.result.value.imageId == ImageBlobId(id)
            && out.result.value.thumbnailId == ThumbBlobId(id)
            && ThumbBlobId(id) in out.store.blobs
            && ThumbBlobId(id) in out.store.thumbs && out.store.thumbs[ThumbBlobId(id)] == thumb.value
            && (id in Ids(st.log) ==>
                  exists k :: 0 <= k < |st.log| && st.log[k].id == id && out.store.log == st.log[k := out.result.value])
            && (id !in Ids(st.log) ==> out.store.log == Kept([out.result.value] + st.log)))
  {
    var idx := Lookup(st.log, req);
    var id := if Truthy(req.existingId) then req.existingId.value else freshId;
    if thumb.Some? {
      var out := Upsert(st, req, freshId, now, thumb);
      StagedMatches(st, req, freshId, now, thumb);
      var updated := Place(st.log, idx, out.result.value);
      if id in Ids(st.log) {
        assert idx.Some?;
        assert Evicted(updated) == [] && BlobsOf([]) == {};
        assert out.store.log == st.log[idx.value := out.result.value];
      } else {
        assert updated == [out.result.value] + st.log;
        FrontSurvives(updated);
      }
    }
  }

  /** The entry at the front of a log is never evicted, and neither are its blobs. */
  lemma FrontSurvives(updated: seq<Entry>)
    requires UniqueIds(updated) && Named(updated) && |updated| > 0
    ensures ImageBlobId(updated[0].id) !in BlobsOf(Evicted(updated))
    ensures ThumbBlobId(updated[0].id) !in BlobsOf(Evicted(updated))
  {
    var gone := Evicted(updated);
    var front := updated[0];
    if |updated| > MaxHistoryItems {
      forall b | b == ImageBlobId(front.id) || b == ThumbBlobId(front.id)
        ensures b !in BlobsOf(gone)
      {
        if b in BlobsOf(gone) {
          var i := OwnerOf(gone, b);
          assert gone[i] == updated[MaxHistoryItems + i];
          assert Owns(updated[0], b);
          OwnerUnique(updated, 0, MaxHistoryItems + i, b);
        }
      }
    }
  }

  /**
   * Replacing a logged entry's image deletes its old two blobs and its
   * cached thumbnail first; `img_<id>` is stored either way, and
   * `thumb_<id>` only when the thumbnail is made.
   */
  lemma UpsertImageReplacesBlobs(st: Store, req: Request, freshId: string, now: int, thumb: Option<string>, k: nat)
    requires req.image.Some? && Truthy(req.existingId)
    requires k < |st.log| && st.log[k].id == req.existingId.value
    requires UniqueIds(st.log) && Named(st.log) && |st.log| <= MaxHistoryItems
    ensures var prev := st.log[k];
      var out := Upsert(st, req, freshId, now, thumb);
      var id := req.existingId.value;
      && (forall b :: b in out.store.blobs <==>
            (b in st.blobs && b != prev.imageId && b != prev.thumbnailId)
            || b == ImageBlobId(id) || (thumb.Some? && b == ThumbBlobId(id)))
      && (forall t :: t in out.store.thumbs <==>
            (t in st.thumbs && t != prev.thumbnailId) || (thumb.Some? && t == ThumbBlobId(id)))
  {
    var idx := FindIndex(st.log, req.existingId.value);
    assert idx.Some?;
    assert idx.value == k;
  }

  /**
   * When the thumbnail cannot be made the save gives None with the log and
   * the active id as they were; for an entry not yet logged, the only
   * change is the stored `img_<id>`.
   */
  lemma UpsertThumbnailFails(st: Store, req: Request, freshId: string, now: int)
    requires req.image.Some?
    ensures var out := Upsert(st, req, freshId, now, None);
      var id := if Truthy(req.existingId) then req.existingId.value else freshId;
      && out.result.None?
      && out.store.log == st.log && out.store.active == st.active
      && (!Truthy(req.existingId) || id !in Ids(st.log) ==>
            out.store.blobs == st.blobs + {ImageBlobId(id)} && out.store.thumbs == st.thumbs)
  {
    var id := if Truthy(req.existingId) then req.existingId.value else freshId;
    if Truthy(req.existingId) && id !in Ids(st.log) {
      assert Lookup(st.log, req).None?;
    }
  }

  /**
   * As written, a failed thumbnail breaks the invariant: a new entry leaves
   * `img_<id>` behind with no entry naming it, and a logged entry keeps
   * naming the blobs just deleted.
   */
  lemma UpsertFailureBreaksValid(st: Store, req: Request, freshId: string, now: int)
    requires Valid(st) && req.image.Some?
    requires !Truthy(req.existingId) ==> freshId !in Ids(st.log)
    ensures !Valid(Upsert(st, req, freshId, now, None).store)
  {
    var out := Upsert(st, req, freshId, now, None);
    var idx := Lookup(st.log, req);
    var id := if Truthy(req.existingId) then req.existingId.value else freshId;
    UpsertThumbnailFails(st, req, freshId, now);
    match idx
    case None =>
      assert id !in Ids(st.log);
      assert ImageBlobId(id) in out.store.blobs;
      if ImageBlobId(id) in BlobsOf(st.log) {
        var i := OwnerOf(st.log, ImageBlobId(id));
        BlobIdsDistinct(id, st.log[i].id);
      }
    case Some(k) =>
      var prev := st.log[k];
      assert prev.thumbnailId == ThumbBlobId(prev.id);
      assert prev.thumbnailId != "" by { assert prev.thumbnailId[0] == 't'; }
      assert prev.thumbnailId in OldBlobs(st.log, idx);
      BlobIdsDistinct(id, prev.id);
      assert prev.thumbnailId !in out.store.blobs;
      assert prev.thumbnailId in ThumbIds(st.log);
  }

  /**
   * A save that makes the thumbnail before deleting or storing anything, as
   * the upload evidently intends: when the thumbnail fails, nothing changes.
   */
  function SafeUpsert(st: Store, req: Request, freshId: string, now: int, thumb: Option<string>): Outcome
  {
    if req.image.Some? && thumb.None? then Outcome(st, None)
    else Upsert(st, req, freshId, now, thumb)
  }

  /**
   * The corrected save keeps the invariant whatever the thumbnail's fate,
   * and a save that gives None has changed nothing.
   */
  lemma SafeUpsertValid(st: Store, req: Request, freshId: string, now: int, thumb: Option<string>)
    requires Valid(st)
    requires !Truthy(req.existingId) ==> freshId !in Ids(st.log)
    ensures var out := SafeUpsert(st, req, freshId, now, thumb);
      && Valid(out.store)
      && (out.result.None? ==> out.store == st)
  {
    if !(req.image.Some? && thumb.None?) {
      UpsertValid(st, req, freshId, now, thumb);
    }
  }

  /**
   * Trimming: the log ends with at most 100 entries and is the front of the
   * placed log, losing none while there is room; every entry cut off has
   * both its blobs and its cached thumbnail gone.
   */
  lemma UpsertTrims(st: Store, req: Request, freshId: string, now: int, thumb: Option<string>)
    requires Upsert(st, req, freshId, now, thumb).result.Some?
    requires |st.log| <= MaxHistoryItems
    ensures var out := Upsert(st, req, freshId, now, thumb);
      var updated := Place(st.log, Lookup(st.log, req), out.result.value);
      var n := |out.store.log|;
      && n == (if |updated| <= MaxHistoryItems then |updated| else MaxHistoryItems)
      && n <= |updated| && out.store.log == updated[..n]
      && (forall j :: n <= j < |updated| ==>
            && updated[j].imageId !in out.store.blobs
            && updated[j].thumbnailId !in out.store.blobs
            && updated[j].thumbnailId !in out.store.thumbs)
  {
    var out := Upsert(st, req, freshId, now, thumb);
    var idx := Lookup(st.log, req);
    var updated := Place(st.log, idx, out.result.value);
    if AnnotationOnly(req) && idx.Some? && st.log[idx.value].annotations == req.annotations {
      assert updated == st.log;
    } else {
      var gone := Evicted(updated);
      forall j | |out.store.log| <= j < |updated|
        ensures updated[j].imageId in BlobsOf(gone) && updated[j].thumbnailId in ThumbIds(gone)
      {
        assert updated[j] == gone[j - MaxHistoryItems];
        assert gone[j - MaxHistoryItems].imageId in ImageIds(gone);
      }
    }
  }

  // ---------------------------------------------------------------------
  // Upsert keeps the invariant
  // ---------------------------------------------------------------------

  lemma NamedUnique(log: seq<Entry>, i: int, j: int)
    requires Named(log) && UniqueIds(log)
    requires 0 <= i < |log| && 0 <= j < |log| && i != j
    ensures log[i].imageId != log[j].imageId && log[i].imageId != log[j].thumbnailId
    ensures log[i].thumbnailId != log[j].thumbnailId && log[i].thumbnailId != log[j].imageId
  {
    BlobIdsDistinct(log[i].id, log[j].id);
    BlobIdsDistinct(log[j].id, log[i].id);
  }

  /** `b` is one of the entry's two blobs. */
  predicate Owns(e: Entry, b: string)
  {
    e.imageId == b || e.thumbnailId == b
  }

  lemma Owner(log: seq<Entry>, b: string)
    ensures b in BlobsOf(log) <==> exists i | 0 <= i < |log| :: Owns(log[i], b)
  {
    if b in BlobsOf(log) {
      if b in ImageIds(log) {
        var i :| 0 <= i < |log| && log[i].imageId == b;
        assert Owns(log[i], b);
      } else {
        var i :| 0 <= i < |log| && log[i].thumbnailId == b;
        assert Owns(log[i], b);
      }
    }
    if exists i | 0 <= i < |log| :: Owns(log[i], b) {
      var i :| 0 <= i < |log| && Owns(log[i], b);
      assert log[i].imageId in ImageIds(log) && log[i].thumbnailId in ThumbIds(log);
    }
  }

  /** The index of an entry that owns a logged blob. */
  lemma OwnerOf(log: seq<Entry>, b: string) returns (i: nat)
    requires b in BlobsOf(log)
    ensures i < |log| && Owns(log[i], b)
  {
    Owner(log, b);
    i :| 0 <= i < |log| && Owns(log[i], b);
  }

  /** With named blobs and unique ids, distinct entries own distinct blobs. */
  lemma OwnerUnique(log: seq<Entry>, i: int, j: int, b: string)
    requires Named(log) && UniqueIds(log)
    requires 0 <= i < |log| && 0 <= j < |log|
    requires Owns(log[i], b) && Owns(log[j], b)
    ensures i == j
  {
    if i != j {
      NamedUnique(log, i, j);
    }
  }

  lemma SplitOwner(updated: seq<Entry>, n: nat, b: string)
    requires n <= |updated|
    ensures b in BlobsOf(updated) <==> b in BlobsOf(updated[..n]) || b in BlobsOf(updated[n..])
  {
    Owner(updated, b);
    Owner(updated[..n], b);
    Owner(updated[n..], b);
    if exists i | 0 <= i < |updated| :: Owns(updated[i], b) {
      var i :| 0 <= i < |updated| && Owns(updated[i], b);
      if i < n {
        assert Owns(updated[..n][i], b);
      } else {
        assert Owns(updated[n..][i - n], b);
      }
    }
    if exists i | 0 <= i < n :: Owns(updated[..n][i], b) {
      var i :| 0 <= i < n && Owns(updated[..n][i], b);
      assert Owns(updated[i], b);
    }
    if exists i | 0 <= i < |updated| - n :: Owns(updated[n..][i], b) {
      var i :| 0 <= i < |updated| - n && Owns(updated[n..][i], b);
      assert Owns(updated[i + n], b);
    }
  }

  lemma SplitDisjoint(updated: seq<Entry>, n: nat, b: string)
    requires Named(updated) && UniqueIds(updated)
    requires n <= |updated|
    ensures !(b in BlobsOf(updated[..n]) && b in BlobsOf(updated[n..]))
  {
    if b in BlobsOf(updated[..n]) && b in BlobsOf(updated[n..]) {
      var i := OwnerOf(updated[..n], b);
      var j := OwnerOf(updated[n..], b);
      assert updated[..n][i] == updated[i] && updated[n..][j] == updated[j + n];
      OwnerUnique(updated, i, j + n, b);
    }
  }

  /** Splitting a log splits its blobs, when the blobs are named after unique ids. */
  lemma BlobsSplit(updated: seq<Entry>, n: nat)
    requires Named(updated) && UniqueIds(updated)
    requires n <= |updated|
    ensures BlobsOf(updated) - BlobsOf(updated[n..]) == BlobsOf(updated[..n])
  {
    forall b
      ensures b in BlobsOf(updated) - BlobsOf(updated[n..]) <==> b in BlobsOf(updated[..n])
    {
      SplitOwner(updated, n, b);
      SplitDisjoint(updated, n, b);
    }
  }

  lemma ThumbsPrefix(updated: seq<Entry>, n: nat)
    requires n <= |updated|
    ensures ThumbIds(updated[..n]) <= ThumbIds(updated)
  {
    forall t | t in ThumbIds(updated[..n])
      ensures t in ThumbIds(updated)
    {
      var i :| 0 <= i < n && updated[..n][i].thumbnailId == t;
      assert updated[i].thumbnailId == t;
    }
  }

  lemma ThumbsSplit(updated: seq<Entry>, n: nat)
    requires n <= |updated|
    ensures ThumbIds(updated) - ThumbIds(updated[n..]) <= ThumbIds(updated[..n])
  {
    forall t | t in ThumbIds(updated) && t !in ThumbIds(updated[n..])
      ensures t in ThumbIds(updated[..n])
    {
      var i :| 0 <= i < |updated| && updated[i].thumbnailId == t;
      if i < n {
        assert updated[..n][i].thumbnailId == t;
      } else {
        assert updated[n..][i - n].thumbnailId == t;
      }
    }
  }

  /** Overwriting an entry with one of the same id and blobs keeps the id and blob sets. */
  lemma ReplaceSameBlobs(log: seq<Entry>, k: nat, e: Entry)
    requires k < |log|
    requires e.id == log[k].id && e.imageId == log[k].imageId && e.thumbnailId == log[k].thumbnailId
    ensures Ids(log[k := e]) == Ids(log)
    ensures ImageIds(log[k := e]) == ImageIds(log) && ThumbIds(log[k := e]) == ThumbIds(log)
    ensures UniqueIds(log) ==> UniqueIds(log[k := e])
    ensures Named(log) ==> Named(log[k := e])
  {
    var r := log[k := e];
    assert forall i :: 0 <= i < |log| ==>
      r[i].id == log[i].id && r[i].imageId == log[i].imageId && r[i].thumbnailId == log[i].thumbnailId;
  }

  /** Putting an entry in front adds its id and blobs. */
  lemma PrependSets(e: Entry, log: seq<Entry>)
    ensures Ids([e] + log) == {e.id} + Ids(log)
    ensures ImageIds([e] + log) == {e.imageId} + ImageIds(log)
    ensures ThumbIds([e] + log) == {e.thumbnailId} + ThumbIds(log)
  {
    var r := [e] + log;
    assert r[0] == e;
    forall x | x in Ids(r) || x in ImageIds(r) || x in ThumbIds(r)
      ensures x in Ids(r) ==> x in {e.id} + Ids(log)
      ensures x in ImageIds(r) ==> x in {e.imageId} + ImageIds(log)
      ensures x in ThumbIds(r) ==> x in {e.thumbnailId} + ThumbIds(log)
    {
      forall i | 1 <= i < |r|
        ensures r[i].id in Ids(log) && r[i].imageId in ImageIds(log) && r[i].thumbnailId in ThumbIds(log)
      {
        assert r[i] == log[i - 1];
      }
    }
    forall i | 0 <= i < |log|
      ensures log[i].id in Ids(r) && log[i].imageId in ImageIds(r) && log[i].thumbnailId in ThumbIds(r)
    {
      assert r[i + 1] == log[i];
    }
  }

  lemma PrependUnique(e: Entry, log: seq<Entry>)
    requires UniqueIds(log) && Named(log)
    requires e.id !in Ids(log)
    requires e.imageId == ImageBlobId(e.id) && e.thumbnailId == ThumbBlobId(e.id)
    ensures UniqueIds([e] + log) && Named([e] + log)
  {
    var r := [e] + log;
    assert forall i :: 1 <= i < |r| ==> r[i] == log[i - 1];
    forall i, j | 0 <= i < j < |r|
      ensures r[i].id != r[j].id
    {
      if i == 0 {
        assert r[j].id == log[j - 1].id;
      }
    }
  }

  /** Trimming keeps the invariant's log-side conjuncts and splits the blobs. */
  lemma KeptValid(updated: seq<Entry>)
    requires UniqueIds(updated) && Named(updated)
    ensures UniqueIds(Kept(updated)) && Named(Kept(updated)) && |Kept(updated)| <= MaxHistoryItems
    ensures BlobsOf(updated) - BlobsOf(Evicted(updated)) == BlobsOf(Kept(updated))
    ensures ThumbIds(updated) - ThumbIds(Evicted(updated)) <= ThumbIds(Kept(updated))
  {
    if |updated| > MaxHistoryItems {
      BlobsSplit(updated, MaxHistoryItems);
      ThumbsSplit(updated, MaxHistoryItems);
    } else {
      assert Evicted(updated) == [];
      assert BlobsOf([]) == {};
    }
  }

  /** The staged blob table and cache, before trimming, match the placed log. */
  lemma StagedMatches(st: Store, req: Request, freshId: string, now: int, thumb: Option<string>)
    requires Valid(st)
    requires !Truthy(req.existingId) ==> freshId !in Ids(st.log)
    requires Upsert(st, req, freshId, now, thumb).result.Some?
    requires !(AnnotationOnly(req) && Lookup(st.log, req).Some?
               && st.log[Lookup(st.log, req).value].annotations == req.annotations)
    ensures var idx := Lookup(st.log, req);
      var entryId := if Truthy(req.existingId) then req.existingId.value else freshId;
      var staged := if req.image.Some? then StoreImage(st, idx, entryId, thumb) else st;
      var e := Upsert(st, req, freshId, now, thumb).result.value;
      var updated := Place(st.log, idx, e);
      && UniqueIds(updated) && Named(updated)
      && staged.blobs == BlobsOf(updated)
      && staged.thumbs.Keys <= ThumbIds(updated)
  {
    if Lookup(st.log, req).Some? {
      StagedReplaced(st, req, freshId, now, thumb);
    } else {
      StagedPrepended(st, req, freshId, now, thumb);
    }
  }

  /** StagedMatches when the entry replaces a logged one. */
  lemma StagedReplaced(st: Store, req: Request, freshId: string, now: int, thumb: Option<string>)
    requires Valid(st)
    requires !Truthy(req.existingId) ==> freshId !in Ids(st.log)
    requires Upsert(st, req, freshId, now, thumb).result.Some?
    requires !(AnnotationOnly(req) && Lookup(st.log, req).Some?
               && st.log[Lookup(st.log, req).value].annotations == req.annotations)
    requires Lookup(st.log, req).Some?
    ensures var idx := Lookup(st.log, req);
      var entryId := if Truthy(req.existingId) then req.existingId.value else freshId;
      var staged := if req.image.Some? then StoreImage(st, idx, entryId, thumb) else st;
      var e := Upsert(st, req, freshId, now, thumb).result.value;
      var updated := Place(st.log, idx, e);
      && UniqueIds(updated) && Named(updated)
      && staged.blobs == BlobsOf(updated)
      && staged.thumbs.Keys <= ThumbIds(updated)
  {
    var idx := Lookup(st.log, req);
    var e := Upsert(st, req, freshId, now, thumb).result.value;
    var prev := st.log[idx.value];
    assert e.id == prev.id;
    assert prev.imageId == ImageBlobId(prev.id) && prev.thumbnailId == ThumbBlobId(prev.id);
    ReplaceSameBlobs(st.log, idx.value, e);
    assert prev.imageId in BlobsOf(st.log) && prev.thumbnailId in ThumbIds(st.log);
    if req.image.Some? {
      assert thumb.Some?;
      ReuploadSameBlobs(st, idx.value, thumb.value);
    }
  }

  /** Re-uploading a logged entry's image deletes and stores the same two blobs. */
  lemma ReuploadSameBlobs(st: Store, k: nat, url: string)
    requires Valid(st) && k < |st.log|
    ensures var staged := StoreImage(st, Some(k), st.log[k].id, Some(url));
      staged.blobs == st.blobs && staged.thumbs.Keys <= ThumbIds(st.log)
  {
    var prev := st.log[k];
    assert prev.imageId == ImageBlobId(prev.id) && prev.thumbnailId == ThumbBlobId(prev.id);
    assert prev.imageId[0] == 'i' && prev.thumbnailId[0] == 't';
    assert OldBlobs(st.log, Some(k)) == {prev.imageId, prev.thumbnailId};
    assert prev.imageId in BlobsOf(st.log) && prev.thumbnailId in ThumbIds(st.log);
  }

  /** StagedMatches when the entry is new and goes to the front. */
  lemma StagedPrepended(st: Store, req: Request, freshId: string, now: int, thumb: Option<string>)
    requires Valid(st)
    requires !Truthy(req.existingId) ==> freshId !in Ids(st.log)
    requires Upsert(st, req, freshId, now, thumb).result.Some?
    requires !(AnnotationOnly(req) && Lookup(st.log, req).Some?
               && st.log[Lookup(st.log, req).value].annotations == req.annotations)
    requires Lookup(st.log, req).None?
    ensures var idx := Lookup(st.log, req);
      var entryId := if Truthy(req.existingId) then req.existingId.value else freshId;
      var staged := if req.image.Some? then StoreImage(st, idx, entryId, thumb) else st;
      var e := Upsert(st, req, freshId, now, thumb).result.value;
      var updated := Place(st.log, idx, e);
      && UniqueIds(updated) && Named(updated)
      && staged.blobs == BlobsOf(updated)
      && staged.thumbs.Keys <= ThumbIds(updated)
  {
    var entryId := if Truthy(req.existingId) then req.existingId.value else freshId;
    var e := Upsert(st, req, freshId, now, thumb).result.value;
    assert req.image.Some?;
    assert entryId !in Ids(st.log);
    PrependSets(e, st.log);
    PrependUnique(e, st.log);
  }

  /**
   * `addOrUpdateHistoryEntry` keeps the invariant, provided a generated id is
   * not already logged and an upload's thumbnail is made (see
   * `UpsertFailureBreaksValid` for the other case).
   */
  lemma UpsertValid(st: Store, req: Request, freshId: string, now: int, thumb: Option<string>)
    requires Valid(st)
    requires req.image.Some? ==> thumb.Some?
    requires !Truthy(req.existingId) ==> freshId !in Ids(st.log)
    ensures Valid(Upsert(st, req, freshId, now, thumb).store)
  {
    var idx := Lookup(st.log, req);
    var out := Upsert(st, req, freshId, now, thumb);
    if out.result.Some? && !(AnnotationOnly(req) && idx.Some? && st.log[idx.value].annotations == req.annotations) {
      StagedMatches(st, req, freshId, now, thumb);
      var updated := Place(st.log, idx, out.result.value);
      KeptValid(updated);
    }
  }

  // ---------------------------------------------------------------------
  // Loading
  // ---------------------------------------------------------------------

  /** What `loadHistoryEntry` hands back, without the decoded image. */
  datatype Loaded = Loaded(annotations: seq<Annotation>, id: string, originalImageName: Option<string>)

  datatype LoadOutcome = LoadOutcome(store: Store, loaded: Option<Loaded>)

  /**
   * `loadHistoryEntry`: the first entry with the id, its image blob fetched
   * and decoded (`decodes` says whether the browser managed it), then the
   * entry becomes the active one. A missing entry, a missing blob or a
   * failed decode gives None and changes nothing.
   */
  function Load(st: Store, id: string, decodes: bool): LoadOutcome
  {
    match FindIndex(st.log, id)
    case None => LoadOutcome(st, None)
    case Some(k) =>
      var e := st.log[k];
      if e.imageId !in st.blobs || !decodes then LoadOutcome(st, None)
      else LoadOutcome(st.(active := Some(e.id)), Some(Loaded(e.annotations, e.id, e.originalImageName)))
  }

  /**
   * Loading succeeds exactly when the id is logged, its image blob is
   * stored and decodes; it then hands back that entry's annotations and name
   * and makes it active. Nothing but the active id ever changes.
   */
  lemma LoadSpec(st: Store, id: string, decodes: bool)
    requires UniqueIds(st.log)
    ensures var out := Load(st, id, decodes);
      && out.store.log == st.log && out.store.blobs == st.blobs && out.store.thumbs == st.thumbs
      && (out.loaded.Some? <==>
            exists k :: 0 <= k < |st.log| && st.log[k].id == id && st.log[k].imageId in st.blobs && decodes)
      && (forall k :: 0 <= k < |st.log| && st.log[k].id == id && out.loaded.Some? ==>
            out.loaded.value == Loaded(st.log[k].annotations, id, st.log[k].originalImageName))
      && (out.loaded.Some? ==> out.store.active == Some(id))
      && (out.loaded.None? ==> out.store.active == st.active)
  {
    var out := Load(st, id, decodes);
    match FindIndex(st.log, id)
    case None =>
    case Some(j) =>
  }

  lemma LoadValid(st: Store, id: string, decodes: bool)
    requires Valid(st)
    ensures Valid(Load(st, id, decodes).store)
  {
  }

  // ---------------------------------------------------------------------
  // Deletion
  // ---------------------------------------------------------------------

  /** `log.filter(e => e.id !== id)`. */
  function Remove(log: seq<Entry>, id: string): (r: seq<Entry>)
    ensures |r| <= |log|
  {
    if |log| == 0 then []
    else if log[0].id == id then Remove(log[1..], id)
    else [log[0]] + Remove(log[1..], id)
  }

  /**
   * `deleteHistoryEntry`: the entries with the id leave the log, the first
   * one's two blobs and cached thumbnail are deleted, and the active id is
   * cleared when it was this one.
   */
  function Delete(st: Store, id: string): (r: Store)
  {
    var log := Remove(st.log, id);
    var active := if st.active == Some(id) then None else st.active;
    match FindIndex(st.log, id)
    case None => Store(log, st.blobs, active, st.thumbs)
    case Some(k) =>
      var e := st.log[k];
      Store(log, st.blobs - {e.imageId, e.thumbnailId}, active, Drop(st.thumbs, {e.thumbnailId}))
  }

  /** Removing an absent id leaves the log as it was. */
  lemma {:induction false} RemoveAbsent(log: seq<Entry>, id: string)
    requires id !in Ids(log)
    ensures Remove(log, id) == log
  {
    if |log| > 0 {
      assert log[0].id in Ids(log);
      assert Ids(log[1..]) <= Ids(log) by {
        forall x | x in Ids(log[1..]) ensures x in Ids(log) {
          var i :| 0 <= i < |log| - 1 && log[1..][i].id == x;
          assert log[i + 1].id == x;
        }
      }
      RemoveAbsent(log[1..], id);
    }
  }

  lemma UniqueTail(log: seq<Entry>)
    requires |log| > 0 && UniqueIds(log)
    ensures UniqueIds(log[1..]) && log[0].id !in Ids(log[1..])
  {
  }

  /** With unique ids, deleting the entry at `k` splices it out and keeps the order. */
  lemma {:induction false} RemoveSplice(log: seq<Entry>, k: nat)
    requires UniqueIds(log) && k < |log|
    ensures Remove(log, log[k].id) == log[..k] + log[k + 1..]
  {
    UniqueTail(log);
    if k == 0 {
      RemoveAbsent(log[1..], log[0].id);
    } else {
      assert log[1..][k - 1] == log[k];
      RemoveSplice(log[1..], k - 1);
      assert log[1..][..k - 1] + log[1..][k..] == log[1..k] + log[k + 1..];
      assert [log[0]] + (log[1..k] + log[k + 1..]) == log[..k] + log[k + 1..];
    }
  }

  /** The entries left after splicing out index `k`, by their index in the log. */
  lemma SpliceIndex(log: seq<Entry>, k: nat)
    requires k < |log|
    ensures var r := log[..k] + log[k + 1..];
      |r| == |log| - 1 && forall i :: 0 <= i < |r| ==> r[i] == log[if i < k then i else i + 1]
  {
  }

  lemma SpliceBlobsOut(log: seq<Entry>, k: nat, b: string)
    requires UniqueIds(log) && Named(log) && k < |log|
    requires b in BlobsOf(log[..k] + log[k + 1..])
    ensures b in BlobsOf(log) && !Owns(log[k], b)
  {
    var r := log[..k] + log[k + 1..];
    SpliceIndex(log, k);
    Owner(r, b);
    Owner(log, b);
    var i :| 0 <= i < |r| && Owns(r[i], b);
    var j := if i < k then i else i + 1;
    assert Owns(log[j], b);
    if Owns(log[k], b) {
      OwnerUnique(log, j, k, b);
    }
  }

  lemma SpliceBlobsIn(log: seq<Entry>, k: nat, b: string)
    requires k < |log|
    requires b in BlobsOf(log) && !Owns(log[k], b)
    ensures b in BlobsOf(log[..k] + log[k + 1..])
  {
    var r := log[..k] + log[k + 1..];
    SpliceIndex(log, k);
    Owner(r, b);
    Owner(log, b);
    var j :| 0 <= j < |log| && Owns(log[j], b);
    assert Owns(r[if j < k then j else j - 1], b);
  }

  /** With named blobs and unique ids, splicing out an entry removes exactly its two blobs. */
  lemma SpliceBlobs(log: seq<Entry>, k: nat)
    requires UniqueIds(log) && Named(log) && k < |log|
    ensures BlobsOf(log[..k] + log[k + 1..]) == BlobsOf(log) - {log[k].imageId, log[k].thumbnailId}
  {
    forall b
      ensures b in BlobsOf(log[..k] + log[k + 1..]) <==> b in BlobsOf(log) - {log[k].imageId, log[k].thumbnailId}
    {
      if b in BlobsOf(log[..k] + log[k + 1..]) {
        SpliceBlobsOut(log, k, b);
      }
      if b in BlobsOf(log) - {log[k].imageId, log[k].thumbnailId} {
        SpliceBlobsIn(log, k, b);
      }
    }
  }

  lemma SpliceThumbs(log: seq<Entry>, k: nat)
    requires k < |log|
    ensures ThumbIds(log) - {log[k].thumbnailId} <= ThumbIds(log[..k] + log[k + 1..])
  {
    var r := log[..k] + log[k + 1..];
    SpliceIndex(log, k);
    forall t | t in ThumbIds(log) - {log[k].thumbnailId}
      ensures t in ThumbIds(r)
    {
      var j :| 0 <= j < |log| && log[j].thumbnailId == t;
      assert r[if j < k then j else j - 1].thumbnailId == t;
    }
  }

  /**
   * Deleting removes the entry from the log keeping the others in order,
   * deletes its two blobs and its cached thumbnail, and clears the active id
   * only when it was this entry; an unknown id changes nothing but the log
   * filter, which is then the identity.
   */
  lemma DeleteSpec(st: Store, id: string)
    requires UniqueIds(st.log)
    ensures var r := Delete(st, id);
      && id !in Ids(r.log)
      && (r.active.Some? <==> st.active.Some? && st.active != Some(id))
      && (r.active.Some? ==> r.active == st.active)
      && (forall k :: 0 <= k < |st.log| && st.log[k].id == id ==>
            && r.log == st.log[..k] + st.log[k + 1..]
            && r.blobs == st.blobs - {st.log[k].imageId, st.log[k].thumbnailId}
            && r.thumbs.Keys == st.thumbs.Keys - {st.log[k].thumbnailId})
      && (id !in Ids(st.log) ==> r.log == st.log && r.blobs == st.blobs && r.thumbs == st.thumbs)
  {
    var r := Delete(st, id);
    match FindIndex(st.log, id)
    case None =>
      RemoveAbsent(st.log, id);
    case Some(j) =>
      RemoveSplice(st.log, j);
  }

  lemma DeleteValid(st: Store, id: string)
    requires Valid(st)
    ensures Valid(Delete(st, id))
  {
    match FindIndex(st.log, id)
    case None =>
      RemoveAbsent(st.log, id);
    case Some(k) =>
      var r := st.log[..k] + st.log[k + 1..];
      RemoveSplice(st.log, k);
      SpliceBlobs(st.log, k);
      SpliceThumbs(st.log, k);
      SpliceIndex(st.log, k);
  }

  // ---------------------------------------------------------------------
  // Thumbnail cache synchronisation
  // ---------------------------------------------------------------------

  /** A cached URL counts only when it is a non-empty string. */
  predicate Cached(cache: map<string, string>, t: string)
  {
    t in cache && cache[t] != ""
  }

  /** The first cache update: entries whose thumbnail is no longer logged go. */
  function PruneCache(cache: map<string, string>, log: seq<Entry>): (r: map<string, string>)
    ensures r.Keys == cache.Keys * ThumbIds(log)
  {
    map t | t in cache && t in ThumbIds(log) :: cache[t]
  }

  /**
   * `newCacheEntries`: a thumbnail already cached keeps its URL; one that is
   * not is fetched, and `urls` maps the thumbnails whose blob was found to
   * the object URL made for it (while the effect is still current).
   */
  function NewEntries(log: seq<Entry>, cache: map<string, string>, urls: map<string, string>): map<string, string>
  {
    map t | t in ThumbIds(log) && (Cached(cache, t) || t in urls) :: if Cached(cache, t) then cache[t] else urls[t]
  }

  /** `finalCache`: each logged thumbnail takes its new URL, else the one cached before. */
  function FinalCache(log: seq<Entry>, incoming: map<string, string>, prev: map<string, string>): map<string, string>
  {
    map t | t in ThumbIds(log) && (Cached(incoming, t) || Cached(prev, t)) :: if Cached(incoming, t) then incoming[t] else prev[t]
  }

  /**
   * The thumbnail sync effect on a log change. It runs when the log is
   * non-empty or a log is stored (`storedLog`); it first prunes the cache and,
   * if it is still current (`current`) once the fetches finish, replaces the
   * cache with the final one.
   */
  function SyncThumbs(cache: map<string, string>, log: seq<Entry>, urls: map<string, string>,
                      current: bool, storedLog: bool): map<string, string>
  {
    if |log| > 0 || storedLog then
      var pruned := PruneCache(cache, log);
      if current then FinalCache(log, NewEntries(log, cache, urls), pruned) else pruned
    else cache
  }

  /**
   * After a completed sync the cache holds exactly the logged thumbnails that
   * were cached or whose blob was fetched, a cached URL is kept and a fetched
   * one is used otherwise.
   */
  lemma SyncCurrent(cache: map<string, string>, log: seq<Entry>, urls: map<string, string>, storedLog: bool, t: string)
    requires |log| > 0 || storedLog
    ensures var r := SyncThumbs(cache, log, urls, true, storedLog);
      && (t in r <==> t in ThumbIds(log) && (Cached(cache, t) || Cached(urls, t)))
      && (t in r && Cached(cache, t) ==> r[t] == cache[t])
      && (t in r && !Cached(cache, t) ==> r[t] == urls[t])
  {
  }

  /** A sync never leaves an unlogged thumbnail in the cache, when it runs. */
  lemma SyncKeys(cache: map<string, string>, log: seq<Entry>, urls: map<string, string>, current: bool, storedLog: bool)
    requires |log| > 0 || storedLog
    ensures SyncThumbs(cache, log, urls, current, storedLog).Keys <= ThumbIds(log)
  {
  }

  /** A sync overtaken by a later log change only prunes, adding nothing. */
  lemma SyncStale(cache: map<string, string>, log: seq<Entry>, urls: map<string, string>, storedLog: bool)
    requires |log| > 0 || storedLog
    ensures var r := SyncThumbs(cache, log, urls, false, storedLog);
      r.Keys <= cache.Keys && forall t :: t in r ==> r[t] == cache[t] && t in ThumbIds(log)
  {
  }

  /** With nothing logged and nothing stored, the cache is left alone. */
  lemma SyncIdle(cache: map<string, string>, urls: map<string, string>, current: bool)
    ensures SyncThumbs(cache, [], urls, current, false) == cache
  {
  }

  /** Syncing a valid store's cache keeps it valid. */
  lemma SyncValid(st: Store, urls: map<string, string>, current: bool, storedLog: bool)
    requires Valid(st)
    ensures Valid(st.(thumbs := SyncThumbs(st.thumbs, st.log, urls, current, storedLog)))
  {
  }
}
