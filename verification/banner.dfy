/** Carousel banners: the checks an uploaded image passes before it is
    stored, and the defaults a new banner receives. The object store and
    the database are outside the model: the upload is a function parameter
    and whether an insert succeeds is a given flag. */
module Banners {
  import opened Base
  import opened Strings

  /** the largest accepted image: 5 MiB */
  const MaxImageBytes: nat := 5 * 1024 * 1024

  /** an uploaded file: its size in bytes and its declared MIME type */
  datatype UploadFile = UploadFile(size: nat, contentType: Option<string>)

  /** the MIME type is present, not empty and names an image */
  predicate ImageType(t: Option<string>) {
    t.Some? && t.value != "" && StartsWith(t.value, "image")
  }

  /** `uploadImage`: emptiness first, then the type, then the size; only a
      file passing all three reaches the store */
  function UploadImage(f: UploadFile, store: UploadFile -> string): (r: Result<string>)
    ensures r.Ok? <==> f.size > 0 && ImageType(f.contentType) && f.size <= MaxImageBytes
    ensures r.Ok? ==> r.value == store(f)
    ensures r == Err(UploadRejected(EmptyFile)) <==> f.size == 0
    ensures r == Err(UploadRejected(NotAnImage)) <==> f.size > 0 && !ImageType(f.contentType)
    ensures r == Err(UploadRejected(TooLarge)) <==> f.size > 0 && ImageType(f.contentType) && f.size > MaxImageBytes
  {
    if f.size == 0 then Err(UploadRejected(EmptyFile))
    else if f.contentType.None? || f.contentType.value == "" || !StartsWith(f.contentType.value, "image") then
      Err(UploadRejected(NotAnImage))
    else if f.size > MaxImageBytes then Err(UploadRejected(TooLarge))
    else Ok(store(f))
  }

  /** The bound is inclusive: a file of exactly 5 MiB is stored, one byte
      more is refused. */
  lemma UploadBound(store: UploadFile -> string)
    ensures UploadImage(UploadFile(5242880, Some("image/png")), store) == Ok(store(UploadFile(5242880, Some("image/png"))))
    ensures UploadImage(UploadFile(5242881, Some("image/png")), store) == Err(UploadRejected(TooLarge))
    ensures UploadImage(UploadFile(0, None), store) == Err(UploadRejected(EmptyFile))
    ensures UploadImage(UploadFile(10, Some("text/plain")), store) == Err(UploadRejected(NotAnImage))
  {
    assert "image/png"[..5] == "image";
    assert "text/plain"[0] != "image"[0];
  }

  /** a banner row; `title` and `imageUrl` stand for its descriptive fields */
  datatype Banner = Banner(id: nat, title: string, imageUrl: string, isActive: Option<bool>, sortOrder: Option<int>)

  /** an unset active flag becomes true and an unset order becomes 0 */
  function WithDefaults(b: Banner): (r: Banner)
    ensures r.isActive.Some? && r.sortOrder.Some?
    ensures b.isActive.Some? ==> r.isActive == b.isActive
    ensures b.isActive.None? ==> r.isActive == Some(true)
    ensures b.sortOrder.Some? ==> r.sortOrder == b.sortOrder
    ensures b.sortOrder.None? ==> r.sortOrder == Some(0)
    ensures r.id == b.id && r.title == b.title && r.imageUrl == b.imageUrl
  {
    b.(isActive := if b.isActive.None? then Some(true) else b.isActive,
       sortOrder := if b.sortOrder.None? then Some(0) else b.sortOrder)
  }

  /** Defaulting twice changes nothing more. */
  lemma WithDefaultsIdempotent(b: Banner)
    ensures WithDefaults(WithDefaults(b)) == WithDefaults(b)
  {
  }

  /** `addBanner`: the defaulted banner is appended, or the failed save is
      reported and the table is unchanged */
  function AddBanner(table: seq<Banner>, b: Banner, saved: bool): (r: Result<seq<Banner>>)
    ensures r.Err? <==> !saved
    ensures r.Err? ==> r.error == SaveFailed
    ensures r.Ok? ==> |r.value| == |table| + 1 && r.value[..|table|] == table
    ensures r.Ok? ==> r.value[|table|] == WithDefaults(b)
  {
    if saved then
      assert (table + [WithDefaults(b)])[..|table|] == table;
      Ok(table + [WithDefaults(b)])
    else Err(SaveFailed)
  }

  /** the stored row with the set fields of `b` written over it; an unset
      field keeps its stored value */
  function Merge(row: Banner, b: Banner): (r: Banner)
    ensures r.id == row.id
    ensures r.isActive == (if b.isActive.Some? then b.isActive else row.isActive)
    ensures r.sortOrder == (if b.sortOrder.Some? then b.sortOrder else row.sortOrder)
  {
    row.(title := b.title, imageUrl := b.imageUrl,
         isActive := if b.isActive.Some? then b.isActive else row.isActive,
         sortOrder := if b.sortOrder.Some? then b.sortOrder else row.sortOrder)
  }

  /** `updateBanner`: an update that touches no row fails */
  function UpdateBanner(table: seq<Banner>, b: Banner): (r: Result<seq<Banner>>)
    ensures r.Err? <==> forall i :: 0 <= i < |table| ==> table[i].id != b.id
    ensures r.Err? ==> r.error == SaveFailed
    ensures r.Ok? ==> |r.value| == |table|
    ensures r.Ok? ==> forall i :: 0 <= i < |table| ==>
      r.value[i] == (if table[i].id == b.id then Merge(table[i], b) else table[i])
  {
    if forall i :: 0 <= i < |table| ==> table[i].id != b.id then Err(SaveFailed)
    else Ok(UpdateRows(table, b))
  }

  function UpdateRows(table: seq<Banner>, b: Banner): (r: seq<Banner>)
    ensures |r| == |table|
    ensures forall i :: 0 <= i < |table| ==> r[i] == (if table[i].id == b.id then Merge(table[i], b) else table[i])
  {
    if |table| == 0 then []
    else UpdateRows(table[..|table| - 1], b) + [if table[|table| - 1].id == b.id then Merge(table[|table| - 1], b) else table[|table| - 1]]
  }

  /** Writing the same change twice gives the same table as writing it once. */
  lemma UpdateBannerIdempotent(table: seq<Banner>, b: Banner)
    requires UpdateBanner(table, b).Ok?
    ensures UpdateBanner(UpdateBanner(table, b).value, b) == UpdateBanner(table, b)
  {
    var t1 := UpdateBanner(table, b).value;
    var i :| 0 <= i < |table| && table[i].id == b.id;
    assert t1[i].id == b.id;
    assert UpdateBanner(t1, b).Ok?;
    assert UpdateBanner(t1, b).value == t1;
  }
}
