/** The menu catalog of routes/menu.js: the `menu` table as a map from id to
    row, plus the files of the uploads directory, named as the `image` column
    refers to them ("/uploads/<file name>"). Uploads are stored by multer
    before a handler runs, so the file set grows even when the handler then
    refuses the request. */
module Menu {
  import Js
  import Sql
  import Http
  import Auth

  /** A row of `menu`. `isAvailable` and `categoryId` are `None` when NULL. */
  datatype Item = Item(
    name: Js.Value,
    price: Js.Value,
    details: Js.Value,
    image: Js.Option<string>,
    isAvailable: Js.Option<int>,
    createdAt: string,
    updatedAt: string,
    categoryId: Js.Option<int>)

  /** The text fields of an add or update request. */
  datatype Form = Form(name: Js.Value, price: Js.Value, details: Js.Value, isAvailable: Js.Value, categoryId: Js.Value)

  type Rows = map<int, Item>

  /** How the `image` column names an uploaded file. */
  function UploadPath(filename: string): string {
    "/uploads/" + filename
  }

  /** The file multer stores for the request, if one was sent. */
  function Stored(upload: Js.Option<string>): set<string> {
    if upload.Some? then {UploadPath(upload.value)} else {}
  }

  /** JavaScript `a || b`. */
  function Or(a: Js.Value, b: Js.Value): Js.Value {
    if Js.Truthy(a) then a else b
  }

  // ----------------------------------------------------------------- add

  /** POST /add-menu refuses a request without a name, a price or details. */
  predicate MissingField(f: Form) {
    !Js.Truthy(f.name) || !Js.Truthy(f.price) || !Js.Truthy(f.details)
  }

  /** `isAvailable ? parseInt(isAvailable) : 1`; NaN is stored as NULL. */
  function Availability(v: Js.Value): (r: Js.Option<int>)
    ensures !Js.Truthy(v) ==> r == Js.Some(1)
    ensures v.Num? && v.n != 0 ==> r == Js.Some(v.n)
  {
    if Js.Truthy(v) then (Js.ParseIntOfNum(if v.Num? then v.n else 0); Js.ParseInt(v)) else Js.Some(1)
  }

  /** `categoryId ? parseInt(categoryId) : null`. */
  function Category(v: Js.Value): (r: Js.Option<int>)
    ensures !Js.Truthy(v) ==> r.None?
    ensures v.Num? && v.n != 0 ==> r == Js.Some(v.n)
  {
    if Js.Truthy(v) then (Js.ParseIntOfNum(if v.Num? then v.n else 0); Js.ParseInt(v)) else Js.None
  }

  /** Form texts: "0" is truthy, so it is parsed (to 0); a text whose first
      character after white space and sign is no digit is NaN and stored as
      NULL. */
  lemma AvailabilityOfTexts()
    ensures Availability(Js.Str("0")) == Js.Some(0)
    ensures Availability(Js.Str("1")) == Js.Some(1)
    ensures Availability(Js.Str("yes")) == Js.None
  {
    Js.ParseIntIgnoresSuffix(0, []);
    Js.ParseIntIgnoresSuffix(1, []);
    assert Js.NatText(0) + [] == "0";
    assert Js.NatText(1) + [] == "1";
  }

  /** A non-empty form text without any digit is NaN and stored as NULL. */
  lemma AvailabilityOfNoDigits(s: string)
    requires s != [] && forall i :: 0 <= i < |s| ==> !Js.IsDigit(s[i])
    ensures Availability(Js.Str(s)) == Js.None
  {
    Js.ParseIntOfNoDigits(s);
  }

  /** A form text that spells an integer is stored as that integer, 0 included. */
  lemma AvailabilityOfIntText(n: int)
    ensures Availability(Js.Str(Js.IntText(n))) == Js.Some(n)
  {
    Js.ParseIntOfText(n);
  }

  /** A form text that spells an integer is that category id, "0" included
      (it is truthy); a non-empty text without a digit is NULL. */
  lemma CategoryOfTexts(n: int, s: string)
    requires s != [] && forall i :: 0 <= i < |s| ==> !Js.IsDigit(s[i])
    ensures Category(Js.Str(Js.IntText(n))) == Js.Some(n)
    ensures Category(Js.Str(s)) == Js.None
  {
    Js.ParseIntOfText(n);
    Js.ParseIntOfNoDigits(s);
  }

  /** The row an accepted POST /add-menu inserts. */
  function NewItem(f: Form, upload: Js.Option<string>, now: string): (it: Item)
    ensures it.name == f.name && it.price == f.price && it.details == f.details
    ensures it.image == if upload.Some? then Js.Some(UploadPath(upload.value)) else Js.None
    ensures it.isAvailable == Availability(f.isAvailable) && it.categoryId == Category(f.categoryId)
    ensures it.createdAt == now && it.updatedAt == now
  {
    Item(f.name, f.price, f.details,
      if upload.Some? then Js.Some(UploadPath(upload.value)) else Js.None,
      Availability(f.isAvailable), now, now, Category(f.categoryId))
  }

  // -------------------------------------------------------------- update

  /** isAvailable on update: kept when not sent (undefined, "" or null),
      otherwise 1 exactly for "1", 1 and true, and 0 for anything else. */
  function UpdatedAvailability(v: Js.Value, stored: Js.Option<int>): (r: Js.Option<int>)
    ensures (v.Undefined? || v == Js.Str("") || v.Null?) ==> r == stored
    ensures !(v.Undefined? || v == Js.Str("") || v.Null?) ==>
      (r == Js.Some(0) || r == Js.Some(1)) &&
      (r == Js.Some(1) <==> (v == Js.Str("1") || v == Js.Num(1) || v == Js.Bool(true)))
  {
    if v.Undefined? || v == Js.Str("") || v.Null? then stored
    else if v == Js.Str("1") || v == Js.Num(1) || v == Js.Bool(true) then Js.Some(1)
    else Js.Some(0)
  }

  /** What UPDATE writes over a row: each text field takes the submitted
      value when it is truthy, the image changes only with a new upload, the
      availability is normalised, and updatedAt is refreshed. */
  function Merge(row: Item, f: Form, upload: Js.Option<string>, now: string): (r: Item)
    ensures r.name == (if Js.Truthy(f.name) then f.name else row.name)
    ensures r.price == (if Js.Truthy(f.price) then f.price else row.price)
    ensures r.details == (if Js.Truthy(f.details) then f.details else row.details)
    ensures r.image == (if upload.Some? then Js.Some(UploadPath(upload.value)) else row.image)
    ensures r.isAvailable == UpdatedAvailability(f.isAvailable, row.isAvailable)
    ensures r.createdAt == row.createdAt && r.categoryId == row.categoryId && r.updatedAt == now
  {
    row.(name := Or(f.name, row.name),
         price := Or(f.price, row.price),
         details := Or(f.details, row.details),
         isAvailable := UpdatedAvailability(f.isAvailable, row.isAvailable),
         image := if upload.Some? then Js.Some(UploadPath(upload.value)) else row.image,
         updatedAt := now)
  }

  /** Sending the same update twice leaves the row of the first. */
  lemma MergeIdempotent(row: Item, f: Form, upload: Js.Option<string>, now: string)
    ensures Merge(Merge(row, f, upload, now), f, upload, now) == Merge(row, f, upload, now)
  {
  }

  /** An update with no fields and no file only refreshes updatedAt. */
  lemma EmptyUpdate(row: Item, now: string)
    ensures Merge(row, Form(Js.Undefined, Js.Undefined, Js.Undefined, Js.Undefined, Js.Undefined), Js.None, now)
            == row.(updatedAt := now)
  {
  }

  // ------------------------------------------------------------- queries

  /** SELECT * FROM menu WHERE isAvailable = 1 OR isAvailable = true. */
  function PublicMenu(rows: Rows): (r: Rows)
    ensures forall id :: id in r <==> id in rows && rows[id].isAvailable == Js.Some(1)
    ensures forall id :: id in r ==> r[id] == rows[id]
  {
    map id | id in rows && rows[id].isAvailable == Js.Some(1) :: rows[id]
  }

  /** GET /: every row, to localhost only. */
  function ListAll(hostname: string, rows: Rows): (r: Http.Reply<Rows>)
    ensures r.status == 200 <==> Http.FromLocalhost(hostname)
    ensures r.status == 200 ==> r.body == Js.Some(rows)
    ensures r.status != 200 ==> r.status == 403 && r.body.None?
  {
    if Http.FromLocalhost(hostname) then Http.Reply(200, Js.Some(rows)) else Http.Reply(403, Js.None)
  }

  /** An item added without isAvailable is on the public menu. */
  lemma AddedIsPublic(rows: Rows, id: int, f: Form, upload: Js.Option<string>, now: string)
    requires !Js.Truthy(f.isAvailable)
    ensures id in PublicMenu(rows[id := NewItem(f, upload, now)])
  {
  }

  /** An explicit isAvailable on update decides public visibility. */
  lemma UpdateDecidesVisibility(rows: Rows, id: int, f: Form, upload: Js.Option<string>, now: string)
    requires id in rows
    requires !(f.isAvailable.Undefined? || f.isAvailable == Js.Str("") || f.isAvailable.Null?)
    ensures var after := rows[id := Merge(rows[id], f, upload, now)];
      id in PublicMenu(after) <==> (f.isAvailable == Js.Str("1") || f.isAvailable == Js.Num(1) || f.isAvailable == Js.Bool(true))
  {
  }

  /** The image file a row owns, if its `image` is set. */
  function ImageFiles(row: Item): set<string> {
    if row.image.Some? && row.image.value != "" then {row.image.value} else {}
  }

  /** DELETE /delete-menu/:id runs behind checkLocalhost and then authenticateToken. */
  function Admit(hostname: string, header: Js.Option<string>, verify: string -> Auth.Verdict): (d: Auth.Decision)
    ensures !Http.FromLocalhost(hostname) ==> d == Auth.Refuse(403)
    ensures Http.FromLocalhost(hostname) ==> d == Auth.Authenticate(header, verify)
  {
    if Http.FromLocalhost(hostname) then Auth.Authenticate(header, verify) else Auth.Refuse(403)
  }

  // ------------------------------------------------------------ the store

  class Catalog {
    var rows: Rows
    var lastId: int
    var uploads: set<string>

    ghost predicate Valid()
      reads this
    {
      0 <= lastId && Sql.IdsWithin(rows.Keys, lastId)
    }

    constructor (uploads: set<string>)
      ensures Valid() && rows == map[] && lastId == 0 && this.uploads == uploads
    {
      rows := map[];
      lastId := 0;
      this.uploads := uploads;
    }

    /** POST /add-menu. */
    method Add(f: Form, upload: Js.Option<string>, now: string) returns (status: int, id: int)
      requires Valid()
      modifies this`rows, this`lastId, this`uploads
      ensures Valid()
      ensures uploads == old(uploads) + Stored(upload)
      ensures status == 400 <==> MissingField(f)
      ensures status == 201 <==> !MissingField(f)
      ensures status == 400 ==> rows == old(rows) && lastId == old(lastId)
      ensures status == 201 ==>
        && id == lastId == old(lastId) + 1 && id !in old(rows)
        && rows == old(rows)[id := NewItem(f, upload, now)]
    {
      uploads := uploads + Stored(upload);
      if MissingField(f) {
        return 400, 0;
      }
      lastId := lastId + 1;
      id := lastId;
      rows := rows[id := NewItem(f, upload, now)];
      status := 201;
    }

    /** PUT /update-menu/:id: read the row, then write the merged row. */
    method Update(param: string, f: Form, upload: Js.Option<string>, now: string) returns (status: int, updatedId: int)
      requires Valid()
      modifies this`rows, this`uploads
      ensures Valid()
      ensures uploads == old(uploads) + Stored(upload)
      ensures lastId == old(lastId)
      ensures status == 400 <==> Js.ParseIntText(param).None?
      ensures status == 404 <==> Js.ParseIntText(param).Some? && Js.ParseIntText(param).value !in old(rows)
      ensures status == 200 <==> Js.ParseIntText(param).Some? && Js.ParseIntText(param).value in old(rows)
      ensures status != 200 ==> rows == old(rows)
      ensures status == 200 ==>
        updatedId == Js.ParseIntText(param).value && rows == old(rows)[updatedId := Merge(old(rows)[updatedId], f, upload, now)]
    {
      uploads := uploads + Stored(upload);
      var k := Js.ParseIntText(param);
      if k.None? {
        status, updatedId := 400, 0;
      } else if k.value !in rows {
        status, updatedId := 404, 0;
      } else {
        updatedId := k.value;
        rows := rows[updatedId := Merge(rows[updatedId], f, upload, now)];
        assert rows.Keys == old(rows).Keys;
        status := 200;
      }
    }

    /** DELETE /delete-menu/:id: unlink the row's image, then delete the row. */
    method Delete(hostname: string, header: Js.Option<string>, verify: string -> Auth.Verdict, param: string)
      returns (status: int)
      requires Valid()
      modifies this`rows, this`uploads
      ensures Valid()
      ensures lastId == old(lastId)
      ensures Admit(hostname, header, verify).Refuse? ==>
        status == Admit(hostname, header, verify).status && rows == old(rows) && uploads == old(uploads)
      ensures Admit(hostname, header, verify).Next? ==>
        && (status == 400 <==> param == "" || Js.IsNaNText(param))
        && (status == 404 <==> param != "" && !Js.IsNaNText(param) && !Sql.Selects(old(rows), param))
        && (status == 200 <==> param != "" && Sql.Selects(old(rows), param))
      ensures status == 200 ==>
        var k := Sql.RowId(param).value;
        rows == old(rows) - {k} && uploads == old(uploads) - ImageFiles(old(rows)[k])
      ensures status != 200 ==> rows == old(rows) && uploads == old(uploads)
    {
      var gate := Admit(hostname, header, verify);
      if gate.Refuse? {
        return gate.status;
      }
      if param == "" || Js.IsNaNText(param) {
        return 400;
      }
      var k := Sql.RowId(param);
      if k.None? || k.value !in rows {
        return 404;
      }
      var row := rows[k.value];
      if row.image.Some? && row.image.value != "" && row.image.value in uploads {
        uploads := uploads - {row.image.value};
      }
      rows := rows - {k.value};
      status := 200;
    }
  }
}
