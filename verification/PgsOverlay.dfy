/** Overlay manifests for image subtitles: validation, the decode budget, and object placement. */
module PgsOverlay {
  import opened Collections

  datatype OverlayObject = OverlayObject(image: string, x: int, y: int, width: int, height: int)

  datatype Cue = Cue(id: string, startMs: int, endMs: int, canvasWidth: int, canvasHeight: int,
      objects: seq<OverlayObject>)

  datatype Manifest = Manifest(
    schema: int, generation: string, fileId: int, trackIndex: int, kind: string, timebase: string,
    durationMs: int, cues: seq<Cue>)

  datatype Validation = Accepted(manifest: Manifest) | InvalidManifest

  const MAXIMUM_CANVAS_WIDTH := 4096
  const MAXIMUM_CANVAS_HEIGHT := 2160
  const MAXIMUM_OBJECTS_PER_CUE := 64
  const MAXIMUM_MANIFEST_CUES := 250000
  const DECODED_IMAGE_BUDGET_BYTES := 96 * 1024 * 1024

  predicate IsSha256(value: string) {
    |value| == 64 && forall c :: c in value ==> '0' <= c <= '9' || 'a' <= c <= 'f'
  }

  function ObjectPrefix(generation: string): string {
    "overlay/" + generation + "/objects/"
  }

  /** The path is the generation's object directory, a hash and `.png`. */
  predicate HasObjectHash(path: string, generation: string) {
    var prefix := ObjectPrefix(generation);
    |path| >= |prefix| + 4 && prefix <= path && path[|path| - 4..] == ".png" && IsSha256(path[|prefix|..|path| - 4])
  }

  // ---------------------------------------------------------------- what a valid manifest is

  predicate ValidHeader(m: Manifest, fileId: int, trackIndex: int) {
    m.schema == 1 && m.kind == "pgs" && m.timebase == "source_ms" && m.fileId == fileId && m.trackIndex == trackIndex &&
    m.durationMs > 0 && IsSha256(m.generation) && |m.cues| <= MAXIMUM_MANIFEST_CUES
  }

  predicate ValidCue(cue: Cue, previousEnd: int, durationMs: int) {
    cue.id != "" && cue.startMs >= previousEnd && cue.endMs > cue.startMs && cue.endMs <= durationMs &&
    1 <= cue.canvasWidth <= MAXIMUM_CANVAS_WIDTH && 1 <= cue.canvasHeight <= MAXIMUM_CANVAS_HEIGHT &&
    |cue.objects| <= MAXIMUM_OBJECTS_PER_CUE
  }

  /** The object lies on the canvas. */
  predicate OnCanvas(o: OverlayObject, canvasWidth: int, canvasHeight: int) {
    o.x >= 0 && o.y >= 0 && o.width > 0 && o.height > 0 && o.x <= canvasWidth && o.y <= canvasHeight &&
    o.width <= canvasWidth - o.x && o.height <= canvasHeight - o.y
  }

  predicate ValidObject(o: OverlayObject, cue: Cue, generation: string) {
    OnCanvas(o, cue.canvasWidth, cue.canvasHeight) && HasObjectHash(o.image, generation)
  }

  function Objects(cues: seq<Cue>): seq<OverlayObject> {
    if cues == [] then [] else Objects(cues[..|cues| - 1]) + cues[|cues| - 1].objects
  }

  /** One image has one size. */
  ghost predicate SizesAgree(objects: seq<OverlayObject>) {
    forall a, b :: a in objects && b in objects && a.image == b.image ==> a.width == b.width && a.height == b.height
  }

  function PreviousEnd(m: Manifest, n: nat): int
    requires n <= |m.cues|
  {
    if n == 0 then 0 else m.cues[n - 1].endMs
  }

  predicate CueFollows(m: Manifest, n: nat)
    requires n < |m.cues|
  {
    ValidCue(m.cues[n], PreviousEnd(m, n), m.durationMs)
  }

  ghost predicate ValidManifest(m: Manifest, fileId: int, trackIndex: int) {
    ValidHeader(m, fileId, trackIndex) &&
    (forall i :: 0 <= i < |m.cues| ==> CueFollows(m, i)) &&
    (forall i, o :: 0 <= i < |m.cues| && o in m.cues[i].objects ==> ValidObject(o, m.cues[i], m.generation)) &&
    SizesAgree(Objects(m.cues))
  }

  datatype Size = Size(width: int, height: int)

  /** `sizes` records the size of every image among the objects, and nothing else. */
  ghost predicate SizesOf(sizes: map<string, Size>, objects: seq<OverlayObject>) {
    (forall o :: o in objects ==> o.image in sizes && sizes[o.image] == Size(o.width, o.height)) &&
    forall image :: image in sizes ==> exists o :: o in objects && o.image == image
  }

  method Validated(m: Manifest, fileId: int, trackIndex: int) returns (result: Validation)
    ensures result == (if ValidManifest(m, fileId, trackIndex) then Accepted(m) else InvalidManifest)
  {
    hide ValidHeader, ValidCue, ValidObject, SizesAgree, SizesOf, Objects;
    if !ValidHeader(m, fileId, trackIndex) { return InvalidManifest; }
    var previousEnd := 0;
    var sizes: map<string, Size> := map[];
    NoSizes();
    for n := 0 to |m.cues|
      invariant previousEnd == PreviousEnd(m, n)
      invariant forall i :: 0 <= i < n ==> CueFollows(m, i)
      invariant forall i, o :: 0 <= i < n && o in m.cues[i].objects ==> ValidObject(o, m.cues[i], m.generation)
      invariant SizesOf(sizes, Objects(m.cues[..n]))
    {
      var cue := m.cues[n];
      if !ValidCue(cue, previousEnd, m.durationMs) {
        assert !CueFollows(m, n);
        return InvalidManifest;
      }
      previousEnd := cue.endMs;
      ghost var before := Objects(m.cues[..n]);
      ObjectsStep(m.cues, n);
      assert before + cue.objects[..0] == before;
      for k := 0 to |cue.objects|
        invariant forall i :: 0 <= i < k ==> ValidObject(cue.objects[i], cue, m.generation)
        invariant SizesOf(sizes, before + cue.objects[..k])
      {
        var o := cue.objects[k];
        if !ValidObject(o, cue, m.generation) {
          assert o in m.cues[n].objects;
          return InvalidManifest;
        }
        SizesGrow(before + cue.objects[..k], o, sizes);
        PartOfAll(m.cues, n, k);
        if o.image in sizes {
          if sizes[o.image] != Size(o.width, o.height) {
            SizesClash(before + cue.objects[..k], o, sizes, Objects(m.cues));
            return InvalidManifest;
          }
        } else {
          sizes := sizes[o.image := Size(o.width, o.height)];
        }
        assert before + cue.objects[..k + 1] == before + cue.objects[..k] + [o];
      }
      assert cue.objects[..|cue.objects|] == cue.objects;
    }
    assert m.cues[..|m.cues|] == m.cues;
    SizesImplyAgreement(sizes, Objects(m.cues));
    result := Accepted(m);
  }

  lemma NoSizes()
    ensures SizesOf(map[], Objects([]))
  {
  }

  lemma ObjectsStep(cues: seq<Cue>, n: nat)
    requires n < |cues|
    ensures Objects(cues[..n + 1]) == Objects(cues[..n]) + cues[n].objects
  {
    assert cues[..n + 1][..n] == cues[..n];
  }

  /** The objects seen so far, and the next one, are objects of the manifest. */
  lemma PartOfAll(cues: seq<Cue>, n: nat, k: nat)
    requires n < |cues| && k < |cues[n].objects|
    ensures forall o :: o in Objects(cues[..n]) + cues[n].objects[..k] ==> o in Objects(cues)
    ensures cues[n].objects[k] in Objects(cues)
  {
    ObjectsStep(cues, n);
    ObjectsGrow(cues, n + 1);
    assert forall o :: o in Objects(cues[..n]) + cues[n].objects[..k] ==> o in Objects(cues[..n + 1]);
    assert cues[n].objects[k] in Objects(cues[..n + 1]);
  }

  lemma SizesGrow(objects: seq<OverlayObject>, o: OverlayObject, sizes: map<string, Size>)
    requires SizesOf(sizes, objects)
    ensures o.image !in sizes ==> SizesOf(sizes[o.image := Size(o.width, o.height)], objects + [o])
    ensures o.image in sizes && sizes[o.image] == Size(o.width, o.height) ==> SizesOf(sizes, objects + [o])
  {
    assert forall p :: p in objects ==> p in objects + [o];
    assert o in objects + [o];
  }

  lemma SizesClash(objects: seq<OverlayObject>, o: OverlayObject, sizes: map<string, Size>, all: seq<OverlayObject>)
    requires SizesOf(sizes, objects) && o.image in sizes && sizes[o.image] != Size(o.width, o.height)
    requires o in all && forall p :: p in objects ==> p in all
    ensures !SizesAgree(all)
  {
    var p :| p in objects && p.image == o.image;
    assert p in all;
  }

  lemma SizesImplyAgreement(sizes: map<string, Size>, objects: seq<OverlayObject>)
    requires SizesOf(sizes, objects)
    ensures SizesAgree(objects)
  {
  }

  lemma {:induction false} ObjectsGrow(cues: seq<Cue>, n: nat)
    requires n <= |cues|
    ensures forall o :: o in Objects(cues[..n]) ==> o in Objects(cues)
    decreases |cues| - n
  {
    if n < |cues| {
      ObjectsGrow(cues, n + 1);
      assert cues[..n + 1][..n] == cues[..n];
    } else {
      assert cues[..n] == cues;
    }
  }

  // ---------------------------------------------------------------- what the schema asks for

  /** A SHA-256 digest in lower-case hexadecimal. */
  ghost predicate IsDigest(hash: string) {
    |hash| == 64 && forall i :: 0 <= i < 64 ==> hash[i] in "0123456789abcdef"
  }

  lemma DigestMeans(hash: string)
    ensures IsSha256(hash) <==> IsDigest(hash)
  {
    assert forall c :: ('0' <= c <= '9' || 'a' <= c <= 'f') <==> c in "0123456789abcdef";
    if IsSha256(hash) {
      forall i | 0 <= i < 64
        ensures hash[i] in "0123456789abcdef"
      {
        assert hash[i] in hash;
      }
    }
    if IsDigest(hash) {
      forall c | c in hash
        ensures '0' <= c <= '9' || 'a' <= c <= 'f'
      {
        var i :| 0 <= i < 64 && hash[i] == c;
      }
    }
  }

  lemma ObjectPathMeans(path: string, generation: string)
    ensures HasObjectHash(path, generation) <==>
              exists hash :: IsDigest(hash) && path == "overlay/" + generation + "/objects/" + hash + ".png"
  {
    hide IsDigest, IsSha256;
    var prefix := ObjectPrefix(generation);
    if HasObjectHash(path, generation) {
      var hash := path[|prefix|..|path| - 4];
      DigestMeans(hash);
      assert path == prefix + hash + ".png";
    }
    if hash :| IsDigest(hash) && path == "overlay/" + generation + "/objects/" + hash + ".png" {
      DigestMeans(hash);
      assert path == prefix + hash + ".png" && path[|prefix|..|path| - 4] == hash;
    }
  }

  /** The header is that of the requested track. */
  lemma HeaderMeans(m: Manifest, fileId: int, trackIndex: int)
    ensures ValidHeader(m, fileId, trackIndex) <==>
              m.schema == 1 && m.kind == "pgs" && m.timebase == "source_ms" && m.fileId == fileId &&
              m.trackIndex == trackIndex && m.durationMs > 0 && IsDigest(m.generation) && |m.cues| <= 250000
  {
    hide IsDigest, IsSha256;
    DigestMeans(m.generation);
  }

  /** A cue lies after the previous one, within the duration, with a canvas and objects of allowed size and number. */
  lemma CueMeans(m: Manifest, n: nat)
    requires n < |m.cues|
    ensures CueFollows(m, n) <==>
              var cue := m.cues[n];
              cue.id != "" && (if n == 0 then 0 else m.cues[n - 1].endMs) <= cue.startMs < cue.endMs <= m.durationMs &&
              1 <= cue.canvasWidth <= 4096 && 1 <= cue.canvasHeight <= 2160 && |cue.objects| <= 64
  {
  }

  /** An object takes a part of the canvas, and its image is a digest in the generation's directory. */
  lemma ObjectMeans(o: OverlayObject, cue: Cue, generation: string)
    ensures ValidObject(o, cue, generation) <==>
              0 <= o.x < o.x + o.width <= cue.canvasWidth && 0 <= o.y < o.y + o.height <= cue.canvasHeight &&
              exists hash :: IsDigest(hash) && o.image == "overlay/" + generation + "/objects/" + hash + ".png"
  {
    hide IsDigest, HasObjectHash;
    ObjectPathMeans(o.image, generation);
  }

  // ---------------------------------------------------------------- one cue at a time

  predicate IsActive(cue: Cue, atMs: int) {
    cue.startMs <= atMs < cue.endMs
  }

  /** A cue is active for its length from its start on, and no longer at its end, where the next one may start. */
  lemma ActiveFromStartToEnd(cue: Cue)
    requires cue.startMs < cue.endMs
    ensures !IsActive(cue, cue.startMs - 1) && IsActive(cue, cue.startMs)
    ensures IsActive(cue, cue.endMs - 1) && !IsActive(cue, cue.endMs)
    ensures forall first, atMs, last :: first <= atMs <= last && IsActive(cue, first) && IsActive(cue, last) ==>
              IsActive(cue, atMs)
  {
  }

  lemma {:induction false} CuesInOrder(m: Manifest, fileId: int, trackIndex: int, i: nat, j: nat)
    requires ValidManifest(m, fileId, trackIndex) && i < j < |m.cues|
    ensures m.cues[i].endMs <= m.cues[j].startMs
  {
    assert CueFollows(m, j);
    if i < j - 1 {
      CuesInOrder(m, fileId, trackIndex, i, j - 1);
      assert CueFollows(m, j - 1);
    }
  }

  /** In a validated manifest at most one cue is active at any time. */
  lemma OneActiveCue(m: Manifest, fileId: int, trackIndex: int, i: nat, j: nat, atMs: int)
    requires ValidManifest(m, fileId, trackIndex) && i < |m.cues| && j < |m.cues|
    requires IsActive(m.cues[i], atMs) && IsActive(m.cues[j], atMs)
    ensures i == j
  {
    if i < j { CuesInOrder(m, fileId, trackIndex, i, j); }
    if j < i { CuesInOrder(m, fileId, trackIndex, j, i); }
  }

  // ---------------------------------------------------------------- the decode budget

  predicate Overflows(value: int) {
    value > 0x7FFF_FFFF_FFFF_FFFF || value < -0x8000_0000_0000_0000
  }

  /** The budget check on the objects from the front, with the images already counted and their bytes. */
  function Fits(objects: seq<OverlayObject>, counted: set<string>, bytes: int): bool {
    if objects == [] then true
    else
      var o := objects[0];
      if o.image in counted then Fits(objects[1..], counted, bytes)
      else
        var pixels := o.width * o.height;
        var imageBytes := pixels * 4;
        !Overflows(pixels) && !Overflows(imageBytes) && imageBytes <= DECODED_IMAGE_BUDGET_BYTES - bytes &&
        Fits(objects[1..], counted + {o.image}, bytes + imageBytes)
  }

  method WindowFitsDecodedBudget(cues: seq<Cue>) returns (fits: bool)
    ensures fits == Fits(Objects(cues), {}, 0)
  {
    var objects := Objects(cues);
    var paths: set<string> := {};
    var bytes := 0;
    assert objects[0..] == objects;
    for n := 0 to |objects|
      invariant Fits(objects, {}, 0) == Fits(objects[n..], paths, bytes)
    {
      assert objects[n..][1..] == objects[n + 1..];
      var o := objects[n];
      if o.image in paths { continue; }
      paths := paths + {o.image};
      var pixels := o.width * o.height;
      var imageBytes := pixels * 4;
      if Overflows(pixels) || Overflows(imageBytes) || imageBytes > DECODED_IMAGE_BUDGET_BYTES - bytes { return false; }
      bytes := bytes + imageBytes;
    }
    fits := true;
  }

  /** Decoded size of each distinct image. */
  function ImageBytes(objects: seq<OverlayObject>): map<string, int> {
    if objects == [] then map[]
    else
      var last := objects[|objects| - 1];
      ImageBytes(objects[..|objects| - 1])[last.image := last.width * last.height * 4]
  }

  /** Objects as a validated manifest has them. */
  ghost predicate Sized(objects: seq<OverlayObject>) {
    SizesAgree(objects) &&
    forall o :: o in objects ==> 0 < o.width <= MAXIMUM_CANVAS_WIDTH && 0 < o.height <= MAXIMUM_CANVAS_HEIGHT
  }

  lemma {:induction false} ImageBytesOf(objects: seq<OverlayObject>)
    requires Sized(objects)
    ensures forall image :: image in ImageBytes(objects) <==> exists o :: o in objects && o.image == image
    ensures forall o :: o in objects ==> ImageBytes(objects)[o.image] == o.width * o.height * 4
  {
    if objects != [] {
      var init, last := objects[..|objects| - 1], objects[|objects| - 1];
      assert objects == init + [last];
      assert forall o :: o in init ==> o in objects;
      ImageBytesOf(init);
      forall image | image in ImageBytes(objects)
        ensures exists o :: o in objects && o.image == image
      {
        if image == last.image { assert last in objects; }
      }
    }
  }

  /** The check is exact and cannot overflow: it is true exactly when the distinct images fit together. */
  lemma {:induction false} FitsMeaning(objects: seq<OverlayObject>, n: nat)
    requires Sized(objects) && n <= |objects|
    requires Sum(ImageBytes(objects[..n])) <= DECODED_IMAGE_BUDGET_BYTES
    ensures Fits(objects[n..], ImageBytes(objects[..n]).Keys, Sum(ImageBytes(objects[..n])))
        <==> Sum(ImageBytes(objects)) <= DECODED_IMAGE_BUDGET_BYTES
    decreases |objects| - n
  {
    hide Sum, Sized, ImageBytes;
    if n == |objects| {
      assert objects[..n] == objects;
    } else {
      var o, before := objects[n], objects[..n];
      assert objects[n..][0] == o && objects[n..][1..] == objects[n + 1..];
      ImageBytesStep(objects, n);
      SmallImage(objects, o);
      if o.image in ImageBytes(before) {
        SameSize(objects, n);
        FitsMeaning(objects, n + 1);
      } else {
        SumUpdated(ImageBytes(before), o.image, o.width * o.height * 4);
        assert ImageBytes(objects[..n + 1]).Keys == ImageBytes(before).Keys + {o.image};
        if Sum(ImageBytes(objects[..n + 1])) <= DECODED_IMAGE_BUDGET_BYTES {
          FitsMeaning(objects, n + 1);
        } else {
          SumGrows(objects, n + 1);
        }
      }
    }
  }

  lemma SmallImage(objects: seq<OverlayObject>, o: OverlayObject)
    requires Sized(objects) && o in objects
    ensures 0 < o.width * o.height <= 4096 * 2160
  {
    ProductOrder(1, o.width, o.height);
    ProductOrder(o.width, 4096, o.height);
  }

  lemma ProductOrder(a: int, b: int, c: int)
    requires a <= b && c >= 0
    ensures a * c <= b * c
  {
  }

  lemma ImageBytesStep(objects: seq<OverlayObject>, n: nat)
    requires n < |objects|
    ensures ImageBytes(objects[..n + 1])
         == ImageBytes(objects[..n])[objects[n].image := objects[n].width * objects[n].height * 4]
  {
    assert objects[..n + 1][..n] == objects[..n];
  }

  lemma SizedPrefix(objects: seq<OverlayObject>, n: nat)
    requires Sized(objects) && n <= |objects|
    ensures Sized(objects[..n])
  {
    assert forall o :: o in objects[..n] ==> o in objects;
  }

  lemma SameSize(objects: seq<OverlayObject>, n: nat)
    requires Sized(objects) && n < |objects| && objects[n].image in ImageBytes(objects[..n])
    ensures ImageBytes(objects[..n + 1]) == ImageBytes(objects[..n])
  {
    SizedPrefix(objects, n);
    ImageBytesOf(objects[..n]);
    assert objects[..n + 1][..n] == objects[..n];
    var o :| o in objects[..n] && o.image == objects[n].image;
    assert o in objects && objects[n] in objects;
  }

  lemma {:induction false} SumGrows(objects: seq<OverlayObject>, n: nat)
    requires Sized(objects) && n <= |objects|
    ensures Sum(ImageBytes(objects[..n])) <= Sum(ImageBytes(objects))
    decreases |objects| - n
  {
    hide Sum;
    if n < |objects| {
      SumGrows(objects, n + 1);
      assert objects[..n + 1][..n] == objects[..n];
      SmallImage(objects, objects[n]);
      if objects[n].image in ImageBytes(objects[..n]) {
        SameSize(objects, n);
      } else {
        SumUpdated(ImageBytes(objects[..n]), objects[n].image, objects[n].width * objects[n].height * 4);
      }
    } else {
      assert objects[..n] == objects;
    }
  }

  /** Any selection of a validated manifest's cues, in any order. */
  ghost predicate DrawnFrom(cues: seq<Cue>, m: Manifest) {
    forall cue :: cue in cues ==> cue in m.cues
  }

  lemma {:induction false} DrawnObjects(cues: seq<Cue>, m: Manifest, o: OverlayObject)
    requires DrawnFrom(cues, m) && o in Objects(cues)
    ensures exists cue :: cue in m.cues && o in cue.objects
  {
    var init, last := cues[..|cues| - 1], cues[|cues| - 1];
    if o in last.objects {
      assert last in cues;
    } else {
      assert forall cue :: cue in init ==> cue in cues;
      DrawnObjects(init, m, o);
    }
  }

  lemma {:induction false} CueObjects(cues: seq<Cue>, n: nat, o: OverlayObject)
    requires n < |cues| && o in cues[n].objects
    ensures o in Objects(cues)
  {
    if n < |cues| - 1 { CueObjects(cues[..|cues| - 1], n, o); }
  }

  lemma DrawnSized(cues: seq<Cue>, m: Manifest, fileId: int, trackIndex: int)
    requires ValidManifest(m, fileId, trackIndex) && DrawnFrom(cues, m)
    ensures Sized(Objects(cues))
  {
    forall o | o in Objects(cues)
      ensures o in Objects(m.cues)
      ensures 0 < o.width <= MAXIMUM_CANVAS_WIDTH && 0 < o.height <= MAXIMUM_CANVAS_HEIGHT
    {
      DrawnObjects(cues, m, o);
      var cue :| cue in m.cues && o in cue.objects;
      var n :| 0 <= n < |m.cues| && m.cues[n] == cue;
      CueObjects(m.cues, n, o);
      assert ValidObject(o, m.cues[n], m.generation);
      assert CueFollows(m, n);
    }
  }

  lemma NoImages()
    ensures ImageBytes([]).Keys == {} && Sum(ImageBytes([])) == 0
  {
    var none := ImageBytes([]);
    assert none == map[];
  }

  /**
   For any window of a validated manifest no product of the check overflows, and it is true exactly when
   the distinct images' bytes are within the budget.
   */
  lemma BudgetIsExact(cues: seq<Cue>, m: Manifest, fileId: int, trackIndex: int)
    requires ValidManifest(m, fileId, trackIndex) && DrawnFrom(cues, m)
    ensures forall o :: o in Objects(cues) ==>
              !Overflows(o.width * o.height) && !Overflows(o.width * o.height * 4) &&
              0 < o.width * o.height <= o.width * o.height * 4 <= 0x7FFF_FFFF_FFFF_FFFF
    ensures Fits(Objects(cues), {}, 0) <==> Sum(ImageBytes(Objects(cues))) <= 96 * 1024 * 1024
  {
    hide ValidManifest, Sized, Sum, Fits, ImageBytes, DrawnFrom;
    DrawnSized(cues, m, fileId, trackIndex);
    var objects := Objects(cues);
    NoImages();
    assert objects[..0] == [] && objects[0..] == objects;
    FitsMeaning(objects, 0);
    forall o | o in objects
      ensures !Overflows(o.width * o.height) && !Overflows(o.width * o.height * 4)
      ensures 0 < o.width * o.height <= o.width * o.height * 4 <= 0x7FFF_FFFF_FFFF_FFFF
    {
      SmallImage(objects, o);
    }
  }

  /** The order and repetition of the cues do not matter. */
  lemma BudgetIgnoresOrder(left: seq<Cue>, right: seq<Cue>, m: Manifest, fileId: int, trackIndex: int)
    requires ValidManifest(m, fileId, trackIndex) && DrawnFrom(left, m) && DrawnFrom(right, m)
    requires forall cue :: cue in left <==> cue in right
    ensures Fits(Objects(left), {}, 0) <==> Fits(Objects(right), {}, 0)
  {
    hide ValidManifest, Sum, Fits;
    BudgetIsExact(left, m, fileId, trackIndex);
    BudgetIsExact(right, m, fileId, trackIndex);
    DrawnSized(left, m, fileId, trackIndex);
    DrawnSized(right, m, fileId, trackIndex);
    SameObjects(left, right);
    SameObjects(right, left);
    ImageBytesOf(Objects(left));
    ImageBytesOf(Objects(right));
    assert ImageBytes(Objects(left)) == ImageBytes(Objects(right)) by {
      SameImages(Objects(left), Objects(right));
    }
  }

  lemma SameImages(left: seq<OverlayObject>, right: seq<OverlayObject>)
    requires Sized(left) && Sized(right) && forall o :: o in left <==> o in right
    ensures ImageBytes(left) == ImageBytes(right)
  {
    hide ImageBytes;
    ImageBytesOf(left);
    ImageBytesOf(right);
    forall image | image in ImageBytes(left)
      ensures image in ImageBytes(right) && ImageBytes(left)[image] == ImageBytes(right)[image]
    {
      var o :| o in left && o.image == image;
      assert o in right;
    }
  }

  lemma {:induction false} SameObjects(left: seq<Cue>, right: seq<Cue>)
    requires forall cue :: cue in left ==> cue in right
    ensures forall o :: o in Objects(left) ==> o in Objects(right)
  {
    if left != [] {
      var init, last := left[..|left| - 1], left[|left| - 1];
      assert last in left && forall cue :: cue in init ==> cue in left;
      SameObjects(init, right);
      var n :| 0 <= n < |right| && right[n] == last;
      forall o | o in last.objects
        ensures o in Objects(right)
      {
        CueObjects(right, n, o);
      }
    }
  }

  // ---------------------------------------------------------------- placement

  datatype Rect = Rect(x: real, y: real, width: real, height: real)

  function Least(a: real, b: real): real { if a < b then a else b }

  /** The largest scale at which the canvas fits the destination. */
  function FittingScale(canvasWidth: int, canvasHeight: int, destination: Rect): real
    requires canvasWidth > 0 && canvasHeight > 0
  {
    Least(destination.width / canvasWidth as real, destination.height / canvasHeight as real)
  }

  /** Along one axis: where a point of the scaled, centred canvas lies. */
  function Placed(start: real, length: real, canvas: int, at: int, scale: real): real {
    start + (length - canvas as real * scale) / 2.0 + at as real * scale
  }

  function ObjectFrame(o: OverlayObject, canvasWidth: int, canvasHeight: int, destination: Rect): Rect {
    if canvasWidth <= 0 || canvasHeight <= 0 then Rect(0.0, 0.0, 0.0, 0.0)
    else
      var scale := FittingScale(canvasWidth, canvasHeight, destination);
      Rect(Placed(destination.x, destination.width, canvasWidth, o.x, scale),
           Placed(destination.y, destination.height, canvasHeight, o.y, scale),
           o.width as real * scale, o.height as real * scale)
  }

  lemma ScaleFits(length: real, canvas: int, scale: real)
    requires length >= 0.0 && canvas > 0 && 0.0 <= scale <= length / canvas as real
    ensures canvas as real * scale <= length
  {
    var c := canvas as real;
    assert c * scale <= c * (length / c);
  }

  lemma ScaledOrder(a: real, b: real, scale: real)
    requires a <= b && scale >= 0.0
    ensures a * scale <= b * scale
  {
  }

  /** Along one axis: a scaled part of the canvas, centred, stays within the destination. */
  lemma AxisInside(start: real, length: real, canvas: int, at: int, extent: int, scale: real)
    requires length >= 0.0 && canvas > 0 && 0.0 <= scale <= length / canvas as real
    requires 0 <= at && 0 <= extent && at + extent <= canvas
    ensures start <= Placed(start, length, canvas, at, scale)
    ensures Placed(start, length, canvas, at, scale) + extent as real * scale <= start + length
  {
    ScaleFits(length, canvas, scale);
    ScaledOrder(0.0, at as real, scale);
    ScaledOrder((at + extent) as real, canvas as real, scale);
    assert (at + extent) as real * scale == at as real * scale + extent as real * scale;
  }

  /** Every object on its canvas is drawn inside the destination, with its proportions kept. */
  lemma FrameInside(o: OverlayObject, canvasWidth: int, canvasHeight: int, destination: Rect)
    requires canvasWidth > 0 && canvasHeight > 0 && OnCanvas(o, canvasWidth, canvasHeight)
    requires destination.width >= 0.0 && destination.height >= 0.0
    ensures var frame := ObjectFrame(o, canvasWidth, canvasHeight, destination);
            destination.x <= frame.x && frame.x + frame.width <= destination.x + destination.width &&
            destination.y <= frame.y && frame.y + frame.height <= destination.y + destination.height &&
            frame.width * o.height as real == frame.height * o.width as real
  {
    hide FittingScale, Placed;
    var scale := FittingScale(canvasWidth, canvasHeight, destination);
    ScaleBounds(canvasWidth, canvasHeight, destination);
    AxisInside(destination.x, destination.width, canvasWidth, o.x, o.width, scale);
    AxisInside(destination.y, destination.height, canvasHeight, o.y, o.height, scale);
    SameProportions(o.width as real, o.height as real, scale);
  }

  /** Where the canvas as a whole is drawn. */
  function CanvasFrame(canvasWidth: int, canvasHeight: int, destination: Rect): Rect {
    ObjectFrame(OverlayObject("", 0, 0, canvasWidth, canvasHeight), canvasWidth, canvasHeight, destination)
  }

  /** The canvas is drawn as large as fits, in the middle of the destination. */
  lemma CanvasFitsInMiddle(canvasWidth: int, canvasHeight: int, destination: Rect)
    requires canvasWidth > 0 && canvasHeight > 0
    ensures var frame := CanvasFrame(canvasWidth, canvasHeight, destination);
            frame.width <= destination.width && frame.height <= destination.height &&
            (frame.width == destination.width || frame.height == destination.height) &&
            frame.x - destination.x == (destination.x + destination.width) - (frame.x + frame.width) &&
            frame.y - destination.y == (destination.y + destination.height) - (frame.y + frame.height)
  {
    var w, h := canvasWidth as real, canvasHeight as real;
    var byWidth, byHeight := destination.width / w, destination.height / h;
    Unscaled(w, destination.width);
    Unscaled(h, destination.height);
    if byWidth < byHeight { ScaledLess(h, byWidth, byHeight); } else { ScaledLess(w, byHeight, byWidth); }
  }

  lemma Unscaled(canvas: real, length: real)
    requires canvas > 0.0
    ensures canvas * (length / canvas) == length
  {
  }

  lemma ScaledLess(canvas: real, small: real, large: real)
    requires canvas > 0.0 && small <= large
    ensures canvas * small <= canvas * large
  {
  }

  /** Every object lies on the drawn canvas where it lies on the canvas. */
  lemma FrameOnCanvas(o: OverlayObject, canvasWidth: int, canvasHeight: int, destination: Rect)
    requires canvasWidth > 0 && canvasHeight > 0
    ensures var frame := ObjectFrame(o, canvasWidth, canvasHeight, destination);
            var whole := CanvasFrame(canvasWidth, canvasHeight, destination);
            (frame.x - whole.x) * canvasWidth as real == o.x as real * whole.width &&
            (frame.y - whole.y) * canvasHeight as real == o.y as real * whole.height &&
            frame.width * canvasWidth as real == o.width as real * whole.width &&
            frame.height * canvasHeight as real == o.height as real * whole.height
  {
    hide FittingScale;
    var scale := FittingScale(canvasWidth, canvasHeight, destination);
    Exchange(o.x as real, scale, canvasWidth as real);
    Exchange(o.y as real, scale, canvasHeight as real);
    Exchange(o.width as real, scale, canvasWidth as real);
    Exchange(o.height as real, scale, canvasHeight as real);
  }

  lemma Exchange(part: real, scale: real, canvas: real)
    ensures (part * scale) * canvas == part * (canvas * scale)
  {
  }

  lemma ScaleBounds(canvasWidth: int, canvasHeight: int, destination: Rect)
    requires canvasWidth > 0 && canvasHeight > 0 && destination.width >= 0.0 && destination.height >= 0.0
    ensures var scale := FittingScale(canvasWidth, canvasHeight, destination);
            0.0 <= scale <= destination.width / canvasWidth as real &&
                scale <= destination.height / canvasHeight as real
  {
    NonNegativeRatio(destination.width, canvasWidth);
    NonNegativeRatio(destination.height, canvasHeight);
  }

  lemma NonNegativeRatio(length: real, canvas: int)
    requires length >= 0.0 && canvas > 0
    ensures length / canvas as real >= 0.0
  {
  }

  lemma SameProportions(width: real, height: real, scale: real)
    ensures (width * scale) * height == (height * scale) * width
  {
  }
}
