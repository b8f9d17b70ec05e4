/** The puzzle image routes. None of them checks who asks. A puzzle keeps at
    most one primary image: the first image created for a puzzle without
    images becomes primary, making an image primary clears the flag on the
    puzzle's other images, and deleting the primary image promotes one of
    the images left. */
module PuzzleImageRoutes {
  import opened Outcomes
  import opened Js
  import opened Schema
  import opened Ordering
  import Store

  /** The images of puzzle `p`. */
  function ImagesOfPuzzle(images: map<int, PuzzleImage>, p: int): (r: set<int>)
    ensures forall i :: i in r <==> i in images && images[i].puzzleId == p
  {
    set i | i in images && images[i].puzzleId == p
  }

  // ---------------------------------------------------------------------
  // GET /puzzle-images/puzzle/:puzzleId

  /** `orderBy: { isPrimary: 'desc' }`: primary images rank first. */
  function PrimaryFirst(images: map<int, PuzzleImage>, ids: set<int>): (rank: map<int, int>)
    requires ids <= images.Keys
    ensures rank.Keys == ids
  {
    map i | i in ids :: if images[i].isPrimary then 0 else 1
  }

  /** The images of the puzzle, primary ones first; a puzzle id that is not
      a number fails in the store. */
  function ListPuzzleImages(s: DbState, puzzleId: string): (r: Result<seq<int>>)
    ensures r.Err? <==> NumberOf(puzzleId).NaN?
    ensures r.Err? ==> r.error == Internal
    ensures r.Ok? ==> forall i :: i in r.value <==> i in s.puzzleImages && s.puzzleImages[i].puzzleId == NumberOf(puzzleId).value
    ensures r.Ok? ==> forall a, b :: 0 <= a < b < |r.value| ==> r.value[a] != r.value[b]
  {
    match NumberOf(puzzleId)
    case NaN => Err(Internal)
    case Num(p) =>
      var ids := ImagesOfPuzzle(s.puzzleImages, p);
      Ok(SortedBy(ids, PrimaryFirst(s.puzzleImages, ids)))
  }

  /** No image in the listing comes after a non-primary one while being
      primary itself. */
  lemma ListedPrimaryFirst(s: DbState, puzzleId: string)
    requires ListPuzzleImages(s, puzzleId).Ok?
    ensures var listed := ListPuzzleImages(s, puzzleId).value;
      forall a, b :: 0 <= a < b < |listed| && s.puzzleImages[listed[b]].isPrimary ==> s.puzzleImages[listed[a]].isPrimary
  {
    var p := NumberOf(puzzleId).value;
    var ids := ImagesOfPuzzle(s.puzzleImages, p);
    var rank := PrimaryFirst(s.puzzleImages, ids);
    var listed := SortedBy(ids, rank);
    forall a, b | 0 <= a < b < |listed| && s.puzzleImages[listed[b]].isPrimary
      ensures s.puzzleImages[listed[a]].isPrimary
    {
      assert Before(rank, listed[a], listed[b]);
    }
  }

  // ---------------------------------------------------------------------
  // POST /puzzle-images

  /** One element of `images`: its `imageUrl` (absent when it is not a
      string) and its `caption`. */
  datatype ImageInput = ImageInput(imageUrl: Option<string>, caption: Option<string>)

  /** The request body: `puzzleId` must pass `isInt` and `images` must be
      an array. */
  datatype NewImages = NewImages(puzzleId: Field<int>, images: Field<seq<ImageInput>>)

  /** `image.caption || null`: an empty caption is stored as null. */
  function CaptionOf(caption: Option<string>): (c: Option<string>)
    ensures c.Some? <==> caption.Some? && caption.value != ""
    ensures c.Some? ==> c == caption
  {
    if caption.Some? && caption.value != "" then caption else None
  }

  /** The image table and id counter after some of the `create` calls, the
      ids they stored and whether one of them failed. */
  datatype Creation = Creation(images: map<int, PuzzleImage>, next: int, ids: seq<int>, failed: bool)

  /** The `create` calls for `images`, in order. A call stores the image
      under the next id, primary when `primary` holds and it is the image at
      index 0; it fails and stores nothing when the image has no URL or the
      puzzle does not exist. A failure does not stop the other calls. */
  function Creating(s: DbState, p: int, images: seq<ImageInput>, primary: bool): (c: Creation)
    ensures c.next == s.nextId + |c.ids|
    ensures forall k :: 0 <= k < |c.ids| ==> c.ids[k] == s.nextId + k
    ensures |c.ids| <= |images|
    decreases |images|
  {
    if images == [] then Creation(s.puzzleImages, s.nextId, [], false)
    else
      var c := Creating(s, p, images[..|images| - 1], primary);
      var image := images[|images| - 1];
      if image.imageUrl.None? || p !in s.puzzles then c.(failed := true)
      else
        var row := PuzzleImage(image.imageUrl.value, CaptionOf(image.caption), primary && |images| == 1, p);
        Creation(c.images[c.next := row], c.next + 1, c.ids + [c.next], c.failed)
  }

  /** The first image is primary exactly when the puzzle has no image yet. */
  function CreatePuzzleImages(s: DbState, body: NewImages): (r: Outcome<seq<int>>)
    ensures r.result.Err? && r.result.error == Invalid <==> !body.puzzleId.Given? || !body.images.Given?
    ensures r.result.Err? ==> r.result.error == Invalid || r.result.error == Internal
    ensures r.result == Err(Invalid) ==> r.state == s
    ensures r.state == s.(puzzleImages := r.state.puzzleImages, nextId := r.state.nextId)
  {
    if !body.puzzleId.Given? || !body.images.Given? then Outcome(Err(Invalid), s)
    else
      var p := body.puzzleId.value;
      var c := Creating(s, p, body.images.value, ImagesOfPuzzle(s.puzzleImages, p) == {});
      Outcome(if c.failed then Err(Internal) else Ok(c.ids), s.(puzzleImages := c.images, nextId := c.next))
  }

  method HandleCreatePuzzleImages(db: Store.Db, body: NewImages) returns (r: Result<seq<int>>)
    modifies db
    ensures Outcome(r, db.tables) == CreatePuzzleImages(old(db.tables), body)
  {
    if !body.puzzleId.Given? || !body.images.Given? {
      return Err(Invalid);
    }
    var p := body.puzzleId.value;
    var images := body.images.value;
    var primary := ImagesOfPuzzle(db.tables.puzzleImages, p) == {};
    ghost var s := db.tables;
    var ids: seq<int> := [];
    var failed := false;
    var i := 0;
    while i < |images|
      invariant 0 <= i <= |images|
      invariant db.tables == s.(puzzleImages := db.tables.puzzleImages, nextId := db.tables.nextId)
      invariant Creating(s, p, images[..i], primary) == Creation(db.tables.puzzleImages, db.tables.nextId, ids, failed)
    {
      var image := images[i];
      assert images[..i + 1][..i] == images[..i];
      if image.imageUrl.None? || p !in db.tables.puzzles {
        failed := true;
      } else {
        var row := PuzzleImage(image.imageUrl.value, CaptionOf(image.caption), primary && i == 0, p);
        var id := db.FreshId();
        db.tables := db.tables.(puzzleImages := db.tables.puzzleImages[id := row]);
        ids := ids + [id];
      }
      i := i + 1;
    }
    assert images[..|images|] == images;
    r := if failed then Err(Internal) else Ok(ids);
  }

  /** The calls add exactly the images under the ids they report. */
  lemma {:induction false} CreatingKeys(s: DbState, p: int, images: seq<ImageInput>, primary: bool)
    ensures forall i :: i in Creating(s, p, images, primary).images <==>
              i in s.puzzleImages || i in Creating(s, p, images, primary).ids
    decreases |images|
  {
    if images != [] {
      CreatingKeys(s, p, images[..|images| - 1], primary);
    }
  }

  /** The calls leave the existing images as they were. */
  lemma {:induction false} CreatingKeeps(s: DbState, p: int, images: seq<ImageInput>, primary: bool)
    requires IdsBelow(s.puzzleImages.Keys, s.nextId)
    ensures forall i :: i in s.puzzleImages ==>
              i in Creating(s, p, images, primary).images &&
              Creating(s, p, images, primary).images[i] == s.puzzleImages[i]
    decreases |images|
  {
    if images != [] {
      var c := Creating(s, p, images[..|images| - 1], primary);
      CreatingKeeps(s, p, images[..|images| - 1], primary);
      CreatingKeys(s, p, images[..|images| - 1], primary);
      assert c.next !in s.puzzleImages;
    }
  }

  /** The `k`-th image the calls added belongs to `p`, which exists, and is
      primary only when `primary` holds and `k` is 0. */
  ghost predicate AddedRow(c: Creation, s: DbState, p: int, primary: bool, k: int)
    requires 0 <= k < |c.ids|
  {
    && c.ids[k] in c.images
    && c.images[c.ids[k]].puzzleId == p && p in s.puzzles
    && (c.images[c.ids[k]].isPrimary ==> primary && k == 0)
  }

  ghost predicate AllAdded(c: Creation, s: DbState, p: int, primary: bool) {
    forall k :: 0 <= k < |c.ids| ==> AddedRow(c, s, p, primary, k)
  }

  /** Every image the calls add belongs to `p`, which exists, and only the
      image at index 0 can be primary. */
  lemma {:induction false} CreatingRows(s: DbState, p: int, images: seq<ImageInput>, primary: bool)
    ensures AllAdded(Creating(s, p, images, primary), s, p, primary)
    decreases |images|
  {
    if images != [] {
      CreatingRows(s, p, images[..|images| - 1], primary);
      if images[|images| - 1].imageUrl.Some? && p in s.puzzles {
        CreatingRowsAdded(s, p, images, primary);
      } else {
        CreatingRowsFailed(s, p, images, primary);
      }
    }
  }

  lemma CreatingRowsAdded(s: DbState, p: int, images: seq<ImageInput>, primary: bool)
    requires images != [] && images[|images| - 1].imageUrl.Some? && p in s.puzzles
    requires AllAdded(Creating(s, p, images[..|images| - 1], primary), s, p, primary)
    ensures AllAdded(Creating(s, p, images, primary), s, p, primary)
  {
    var c := Creating(s, p, images[..|images| - 1], primary);
    var image := images[|images| - 1];
    var row := PuzzleImage(image.imageUrl.value, CaptionOf(image.caption), primary && |images| == 1, p);
    assert Creating(s, p, images, primary) == Creation(c.images[c.next := row], c.next + 1, c.ids + [c.next], c.failed);
    AddedRowsStep(s, p, primary, c, row);
  }

  lemma CreatingRowsFailed(s: DbState, p: int, images: seq<ImageInput>, primary: bool)
    requires images != [] && (images[|images| - 1].imageUrl.None? || p !in s.puzzles)
    requires AllAdded(Creating(s, p, images[..|images| - 1], primary), s, p, primary)
    ensures AllAdded(Creating(s, p, images, primary), s, p, primary)
  {
    var c := Creating(s, p, images[..|images| - 1], primary);
    assert Creating(s, p, images, primary) == c.(failed := true);
    FailedKeepsRows(c, s, p, primary);
  }

  lemma FailedKeepsRows(c: Creation, s: DbState, p: int, primary: bool)
    requires AllAdded(c, s, p, primary)
    ensures AllAdded(c.(failed := true), s, p, primary)
  {
    forall k | 0 <= k < |c.ids|
      ensures AddedRow(c.(failed := true), s, p, primary, k)
    {
      assert AddedRow(c, s, p, primary, k);
    }
  }

  lemma AddedRowsStep(s: DbState, p: int, primary: bool, c: Creation, row: PuzzleImage)
    requires forall k :: 0 <= k < |c.ids| ==> AddedRow(c, s, p, primary, k)
    requires forall k :: 0 <= k < |c.ids| ==> c.ids[k] < c.next
    requires row.puzzleId == p && p in s.puzzles && (row.isPrimary ==> primary && |c.ids| == 0)
    ensures var c' := Creation(c.images[c.next := row], c.next + 1, c.ids + [c.next], c.failed);
      forall k :: 0 <= k < |c'.ids| ==> AddedRow(c', s, p, primary, k)
  {
    var c' := Creation(c.images[c.next := row], c.next + 1, c.ids + [c.next], c.failed);
    forall k | 0 <= k < |c'.ids|
      ensures AddedRow(c', s, p, primary, k)
    {
      if k < |c.ids| {
        assert AddedRow(c, s, p, primary, k);
        assert c'.ids[k] == c.ids[k];
      }
    }
  }

  /** Some call fails exactly when there is an image without a URL or, with
      at least one image, the puzzle does not exist. */
  lemma {:induction false} CreatingFails(s: DbState, p: int, images: seq<ImageInput>, primary: bool)
    ensures Creating(s, p, images, primary).failed <==>
              exists j :: 0 <= j < |images| && (images[j].imageUrl.None? || p !in s.puzzles)
    decreases |images|
  {
    if images != [] {
      var init := images[..|images| - 1];
      CreatingFails(s, p, init, primary);
      if exists j :: 0 <= j < |init| && (init[j].imageUrl.None? || p !in s.puzzles) {
        var j :| 0 <= j < |init| && (init[j].imageUrl.None? || p !in s.puzzles);
        assert images[j] == init[j];
      }
      if exists j :: 0 <= j < |images| && (images[j].imageUrl.None? || p !in s.puzzles) {
        var j :| 0 <= j < |images| && (images[j].imageUrl.None? || p !in s.puzzles);
        if j < |init| {
          assert init[j] == images[j];
        }
      }
    }
  }

  /** When no call fails, image `k` is stored under the `k`-th id with its
      URL and caption, primary exactly when `primary` holds and `k` is 0. */
  lemma {:induction false} CreatingAll(s: DbState, p: int, images: seq<ImageInput>, primary: bool)
    requires !Creating(s, p, images, primary).failed
    ensures |Creating(s, p, images, primary).ids| == |images|
    ensures forall k :: 0 <= k < |images| ==> images[k].imageUrl.Some?
    ensures forall k :: 0 <= k < |images| ==>
              Creating(s, p, images, primary).ids[k] in Creating(s, p, images, primary).images
    ensures forall k :: 0 <= k < |images| ==>
              Creating(s, p, images, primary).images[Creating(s, p, images, primary).ids[k]] ==
              PuzzleImage(images[k].imageUrl.value, CaptionOf(images[k].caption), primary && k == 0, p)
    decreases |images|
  {
    if images != [] {
      var init := images[..|images| - 1];
      CreatingAll(s, p, init, primary);
      var c := Creating(s, p, init, primary);
      var c' := Creating(s, p, images, primary);
      forall k | 0 <= k < |images|
        ensures images[k].imageUrl.Some? && c'.ids[k] in c'.images
        ensures c'.images[c'.ids[k]] ==
                PuzzleImage(images[k].imageUrl.value, CaptionOf(images[k].caption), primary && k == 0, p)
      {
        if k < |init| {
          assert images[k] == init[k] && c'.ids[k] == c.ids[k];
          assert c.ids[k] != c.next;
        }
      }
    }
  }

  /** The new images keep the ids below the counter, belong to an existing
      puzzle, and add a primary only to a puzzle that had no image. */
  lemma CreatePuzzleImagesConsistent(s: DbState, body: NewImages)
    requires Consistent(s)
    ensures Consistent(CreatePuzzleImages(s, body).state)
  {
    if body.puzzleId.Given? && body.images.Given? {
      var p := body.puzzleId.value;
      var primary := ImagesOfPuzzle(s.puzzleImages, p) == {};
      var c := Creating(s, p, body.images.value, primary);
      CreatingKeys(s, p, body.images.value, primary);
      CreatingKeeps(s, p, body.images.value, primary);
      CreatingRows(s, p, body.images.value, primary);
      var m := c.images;
      assert IdsBelow(m.Keys, c.next);
      assert PuzzleImagesLinked(m, s.puzzles) by {
        forall i | i in m ensures m[i].puzzleId in s.puzzles {
          if i in c.ids {
            var a :| 0 <= a < |c.ids| && c.ids[a] == i;
            assert AddedRow(c, s, p, primary, a);
          }
        }
      }
      assert OnePrimary(m) by {
        forall i, j | i in m && j in m && m[i].isPrimary && m[j].isPrimary && m[i].puzzleId == m[j].puzzleId
          ensures i == j
        {
          if i in c.ids {
            var a :| 0 <= a < |c.ids| && c.ids[a] == i;
            assert AddedRow(c, s, p, primary, a);
          }
          if j in c.ids {
            var b :| 0 <= b < |c.ids| && c.ids[b] == j;
            assert AddedRow(c, s, p, primary, b);
          }
          if (i in c.ids) != (j in c.ids) {
            assert false;
          }
        }
      }
      ImagesReplacedConsistent(s, m, c.next);
    }
  }

  /** The route keeps every existing image as it was and adds images only
      under ids from the old counter up; an accepted body reports exactly
      the ids it added. */
  lemma CreatePuzzleImagesKeeps(s: DbState, body: NewImages)
    requires IdsBelow(s.puzzleImages.Keys, s.nextId)
    ensures var r := CreatePuzzleImages(s, body);
      && s.nextId <= r.state.nextId
      && (forall i :: i in s.puzzleImages ==> i in r.state.puzzleImages && r.state.puzzleImages[i] == s.puzzleImages[i])
      && (forall i :: i in r.state.puzzleImages && i !in s.puzzleImages ==> s.nextId <= i < r.state.nextId)
      && (r.result.Ok? ==> forall i :: i in r.state.puzzleImages <==> i in s.puzzleImages || i in r.result.value)
  {
    if body.puzzleId.Given? && body.images.Given? {
      var p := body.puzzleId.value;
      var primary := ImagesOfPuzzle(s.puzzleImages, p) == {};
      var c := Creating(s, p, body.images.value, primary);
      CreatingKeys(s, p, body.images.value, primary);
      CreatingKeeps(s, p, body.images.value, primary);
      forall i | i in c.images && i !in s.puzzleImages
        ensures s.nextId <= i < c.next
      {
        var a :| 0 <= a < |c.ids| && c.ids[a] == i;
      }
    }
  }

  /** A puzzle without images gets its first new image as its one primary
      image; a puzzle with images gets no new primary. */
  lemma CreateSetsFirstPrimary(s: DbState, body: NewImages)
    requires CreatePuzzleImages(s, body).result.Ok?
    ensures var out := CreatePuzzleImages(s, body);
      && body.puzzleId.Given? && body.images.Given?
      && |out.result.value| == |body.images.value|
      && forall k :: 0 <= k < |body.images.value| ==>
           && body.images.value[k].imageUrl.Some?
           && out.result.value[k] in out.state.puzzleImages
           && out.state.puzzleImages[out.result.value[k]].puzzleId == body.puzzleId.value
           && out.state.puzzleImages[out.result.value[k]].imageUrl == body.images.value[k].imageUrl.value
           && (out.state.puzzleImages[out.result.value[k]].isPrimary <==>
                 k == 0 && ImagesOfPuzzle(s.puzzleImages, body.puzzleId.value) == {})
  {
    var p := body.puzzleId.value;
    CreatingAll(s, p, body.images.value, ImagesOfPuzzle(s.puzzleImages, p) == {});
  }

  /** The request fails in the store exactly when an image lacks a URL or,
      with at least one image, the puzzle does not exist. */
  lemma CreateFailures(s: DbState, body: NewImages)
    requires body.puzzleId.Given? && body.images.Given?
    ensures CreatePuzzleImages(s, body).result.Err? <==>
              exists j :: 0 <= j < |body.images.value| &&
                (body.images.value[j].imageUrl.None? || body.puzzleId.value !in s.puzzles)
  {
    var p := body.puzzleId.value;
    CreatingFails(s, p, body.images.value, ImagesOfPuzzle(s.puzzleImages, p) == {});
  }

  /** Writing only the image table keeps the store consistent when the new
      table is linked, has one primary per puzzle and ids below the counter. */
  lemma ImagesReplacedConsistent(s: DbState, m: map<int, PuzzleImage>, next: int)
    requires Consistent(s) && next >= s.nextId
    requires IdsBelow(m.Keys, next) && PuzzleImagesLinked(m, s.puzzles) && OnePrimary(m)
    ensures Consistent(s.(puzzleImages := m, nextId := next))
  {
    var t := s.(puzzleImages := m, nextId := next);
    IdsFreshRaised(s, next);
    assert IdsFresh(t);
    assert Linked(t);
  }

  // ---------------------------------------------------------------------
  // PUT /puzzle-images/:id

  /** The request body: `caption` and `isPrimary` when present; a present
      caption may be null. */
  datatype ImagePatch = ImagePatch(caption: Option<Option<string>>, isPrimary: Option<bool>)

  function Patched(image: PuzzleImage, patch: ImagePatch): (r: PuzzleImage)
    ensures r.imageUrl == image.imageUrl && r.puzzleId == image.puzzleId
    ensures r.caption == (if patch.caption.Some? then patch.caption.value else image.caption)
    ensures r.isPrimary == (if patch.isPrimary.Some? then patch.isPrimary.value else image.isPrimary)
  {
    image.(caption := if patch.caption.Some? then patch.caption.value else image.caption,
           isPrimary := if patch.isPrimary.Some? then patch.isPrimary.value else image.isPrimary)
  }

  /** `updateMany` clearing the flag on the images of puzzle `p` other than
      `keep`. */
  function Unset(images: map<int, PuzzleImage>, p: int, keep: int): (r: map<int, PuzzleImage>)
    ensures r.Keys == images.Keys
  {
    map i | i in images :: if images[i].puzzleId == p && i != keep then images[i].(isPrimary := false) else images[i]
  }

  /** With `isPrimary` true, the other images of the puzzle are cleared
      first; an unknown id gives 404 and changes nothing. */
  function UpdatePuzzleImage(s: DbState, id: int, patch: ImagePatch): (r: Outcome<PuzzleImage>)
    ensures r.result.Ok? <==> id in s.puzzleImages
    ensures r.result.Err? ==> r.result.error == NotFound("Image not found") && r.state == s
    ensures r.result.Ok? ==> id in r.state.puzzleImages && r.state.puzzleImages[id] == r.result.value == Patched(s.puzzleImages[id], patch)
    ensures r.result.Ok? ==>
      && r.state == s.(puzzleImages := r.state.puzzleImages)
      && r.state.puzzleImages.Keys == s.puzzleImages.Keys
      && forall i :: i in s.puzzleImages && i != id ==>
           r.state.puzzleImages[i] == s.puzzleImages[i].(isPrimary := s.puzzleImages[i].isPrimary
             && !(patch.isPrimary == Some(true) && s.puzzleImages[i].puzzleId == s.puzzleImages[id].puzzleId))
  {
    if id !in s.puzzleImages then Outcome(Err(NotFound("Image not found")), s)
    else
      var cleared :=
        if patch.isPrimary == Some(true) then Unset(s.puzzleImages, s.puzzleImages[id].puzzleId, id)
        else s.puzzleImages;
      var image := Patched(s.puzzleImages[id], patch);
      Outcome(Ok(image), s.(puzzleImages := cleared[id := image]))
  }

  method HandleUpdatePuzzleImage(db: Store.Db, id: int, patch: ImagePatch) returns (r: Result<PuzzleImage>)
    modifies db
    ensures Outcome(r, db.tables) == UpdatePuzzleImage(old(db.tables), id, patch)
  {
    if patch.isPrimary == Some(true) {
      if id in db.tables.puzzleImages {
        var image := db.tables.puzzleImages[id];
        db.tables := db.tables.(puzzleImages := Unset(db.tables.puzzleImages, image.puzzleId, id));
      }
    }
    if id !in db.tables.puzzleImages {
      return Err(NotFound("Image not found"));
    }
    var updated := Patched(db.tables.puzzleImages[id], patch);
    db.tables := db.tables.(puzzleImages := db.tables.puzzleImages[id := updated]);
    r := Ok(updated);
  }

  /** Making an image primary leaves it the only primary image of its
      puzzle; any update keeps at most one primary per puzzle, leaves every
      other puzzle's images as they were, and keeps the store consistent. */
  lemma UpdatePuzzleImageConsistent(s: DbState, id: int, patch: ImagePatch)
    requires Consistent(s)
    ensures var t := UpdatePuzzleImage(s, id, patch).state;
      && Consistent(t)
      && t.puzzleImages.Keys == s.puzzleImages.Keys
      && (id in s.puzzleImages ==>
            forall i :: i in s.puzzleImages && s.puzzleImages[i].puzzleId != s.puzzleImages[id].puzzleId ==>
              t.puzzleImages[i] == s.puzzleImages[i])
      && (id in s.puzzleImages && patch.isPrimary == Some(true) ==>
            t.puzzleImages[id].isPrimary &&
            forall i :: i in t.puzzleImages && i != id && t.puzzleImages[i].puzzleId == t.puzzleImages[id].puzzleId ==>
              !t.puzzleImages[i].isPrimary)
  {
    if id in s.puzzleImages {
      var t := UpdatePuzzleImage(s, id, patch).state;
      var m := t.puzzleImages;
      assert OnePrimary(m) by {
        forall i, j | i in m && j in m && m[i].isPrimary && m[j].isPrimary && m[i].puzzleId == m[j].puzzleId
          ensures i == j
        {
          assert s.puzzleImages[i].puzzleId == m[i].puzzleId && s.puzzleImages[j].puzzleId == m[j].puzzleId;
        }
      }
      assert IdsBelow(m.Keys, s.nextId);
      assert PuzzleImagesLinked(m, s.puzzles) by {
        forall i | i in m ensures m[i].puzzleId in s.puzzles {
          assert m[i].puzzleId == s.puzzleImages[i].puzzleId;
        }
      }
      ImagesReplacedConsistent(s, m, s.nextId);
      assert t == s.(puzzleImages := m, nextId := s.nextId);
    }
  }

  // ---------------------------------------------------------------------
  // DELETE /puzzle-images/:id

  /** The image `take: 1` returns: the query names no order, and the model
      takes the lowest id. */
  function Lowest(ids: set<int>): (m: int)
    requires ids != {}
    ensures m in ids && forall x :: x in ids ==> m <= x
  {
    var rank := map i | i in ids :: 0;
    var m := First(ids, rank);
    assert forall x :: x in ids ==> Before(rank, m, x);
    m
  }

  /** Deleting the primary image promotes the lowest-numbered image left of
      the same puzzle, if there is one; an unknown id gives 404 and changes
      nothing. */
  function DeletePuzzleImage(s: DbState, id: int): (r: Outcome<()>)
    ensures r.result.Ok? <==> id in s.puzzleImages
    ensures r.result.Err? ==> r.result.error == NotFound("Image not found") && r.state == s
  {
    if id !in s.puzzleImages then Outcome(Err(NotFound("Image not found")), s)
    else
      var image := s.puzzleImages[id];
      var rest := s.puzzleImages - {id};
      var left := ImagesOfPuzzle(rest, image.puzzleId);
      var images :=
        if image.isPrimary && left != {} then
          var k := Lowest(left);
          rest[k := rest[k].(isPrimary := true)]
        else rest;
      Outcome(Ok(()), s.(puzzleImages := images))
  }

  method HandleDeletePuzzleImage(db: Store.Db, id: int) returns (r: Result<()>)
    modifies db
    ensures Outcome(r, db.tables) == DeletePuzzleImage(old(db.tables), id)
  {
    if id !in db.tables.puzzleImages {
      return Err(NotFound("Image not found"));
    }
    var image := db.tables.puzzleImages[id];
    db.tables := db.tables.(puzzleImages := db.tables.puzzleImages - {id});
    if image.isPrimary {
      var left := ImagesOfPuzzle(db.tables.puzzleImages, image.puzzleId);
      if left != {} {
        var k := Lowest(left);
        db.tables := db.tables.(puzzleImages := db.tables.puzzleImages[k := db.tables.puzzleImages[k].(isPrimary := true)]);
      }
    }
    r := Ok(());
  }

  /** Deleting writes only the image table: it removes `id`, keeps every
      other image's URL, caption and puzzle, and changes a flag only to set
      it on the lowest-numbered image left of the deleted primary image's
      puzzle. */
  lemma DeletePuzzleImageKeeps(s: DbState, id: int)
    requires id in s.puzzleImages
    ensures var t := DeletePuzzleImage(s, id).state;
      var p := s.puzzleImages[id].puzzleId;
      && t == s.(puzzleImages := t.puzzleImages)
      && t.puzzleImages.Keys == s.puzzleImages.Keys - {id}
      && (forall i :: i in t.puzzleImages ==>
            t.puzzleImages[i] == s.puzzleImages[i].(isPrimary := t.puzzleImages[i].isPrimary))
      && (forall i :: i in t.puzzleImages && t.puzzleImages[i].isPrimary != s.puzzleImages[i].isPrimary ==>
            && t.puzzleImages[i].isPrimary && s.puzzleImages[id].isPrimary && s.puzzleImages[i].puzzleId == p
            && forall j :: j in t.puzzleImages && t.puzzleImages[j].puzzleId == p ==> i <= j)
  {
    var image := s.puzzleImages[id];
    var rest := s.puzzleImages - {id};
    var left := ImagesOfPuzzle(rest, image.puzzleId);
    var m := DeletePuzzleImage(s, id).state.puzzleImages;
    if image.isPrimary && left != {} {
      var k := Lowest(left);
      forall i | i in m && m[i].isPrimary != s.puzzleImages[i].isPrimary
        ensures i == k
      {
      }
      forall j | j in m && m[j].puzzleId == image.puzzleId
        ensures j in left
      {
      }
    }
  }

  /** Deleting an image keeps the store consistent and touches no other
      puzzle's images; deleting a non-primary image changes no flag, and
      deleting the primary image of a puzzle that has images left leaves it
      exactly one primary image. */
  lemma DeletePuzzleImageConsistent(s: DbState, id: int)
    requires Consistent(s) && id in s.puzzleImages
    ensures var t := DeletePuzzleImage(s, id).state;
      var p := s.puzzleImages[id].puzzleId;
      && Consistent(t)
      && t.puzzleImages.Keys == s.puzzleImages.Keys - {id}
      && (forall i :: i in t.puzzleImages && s.puzzleImages[i].puzzleId != p ==> t.puzzleImages[i] == s.puzzleImages[i])
      && (!s.puzzleImages[id].isPrimary ==> t.puzzleImages == s.puzzleImages - {id})
      && (s.puzzleImages[id].isPrimary && ImagesOfPuzzle(t.puzzleImages, p) != {} ==>
            exists k :: k in t.puzzleImages && t.puzzleImages[k].puzzleId == p && t.puzzleImages[k].isPrimary)
  {
    var t := DeletePuzzleImage(s, id).state;
    var m := t.puzzleImages;
    var image := s.puzzleImages[id];
    var rest := s.puzzleImages - {id};
    var left := ImagesOfPuzzle(rest, image.puzzleId);
    assert PuzzleImagesLinked(m, s.puzzles) by {
      forall i | i in m ensures m[i].puzzleId in s.puzzles {
        assert m[i].puzzleId == s.puzzleImages[i].puzzleId;
      }
    }
    assert IdsBelow(m.Keys, s.nextId);
    if image.isPrimary && left != {} {
      var k := Lowest(left);
      assert OnePrimary(m) by {
        forall i, j | i in m && j in m && m[i].isPrimary && m[j].isPrimary && m[i].puzzleId == m[j].puzzleId
          ensures i == j
        {
          if i != k && j != k {
            assert s.puzzleImages[i] == m[i] && s.puzzleImages[j] == m[j];
          } else if i != j {
            assert false;
          }
        }
      }
      assert m[k].puzzleId == image.puzzleId && m[k].isPrimary;
    } else {
      assert OnePrimary(m) by {
        forall i, j | i in m && j in m && m[i].isPrimary && m[j].isPrimary && m[i].puzzleId == m[j].puzzleId
          ensures i == j
        {
          assert s.puzzleImages[i] == m[i] && s.puzzleImages[j] == m[j];
        }
      }
    }
    ImagesReplacedConsistent(s, m, s.nextId);
    assert t == s.(puzzleImages := m, nextId := s.nextId);
  }
}
