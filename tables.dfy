/** The table registry of routes/tables.js: the `tables` table (an
    AUTOINCREMENT id, a UNIQUE NOT NULL INTEGER `number` and a `status`
    defaulting to 'available') and the QR images of uploads/qr_codes, as a map
    from file name to the URL the image encodes. */
module Tables {
  import Js
  import Sql
  import Http
  import Qr

  datatype TableRow = TableRow(number: Sql.Value, status: string)

  type Rows = map<int, TableRow>

  /** The status every table is inserted with. */
  const Available := "available"

  /** The answer of a successful POST /. */
  datatype Created = Created(id: int, number: Js.Value, status: string, qrCodeUrl: string)

  /** What the INTEGER column `number` stores for a submitted number. */
  function StoredNumber(number: Js.Value): Sql.Value {
    Sql.Convert(Sql.IntegerAffinity, Sql.Bind(number))
  }

  /** What `WHERE number = ?` compares the column with, for a route parameter:
      numeric affinity is applied to the parameter. */
  function Probe(param: string): Sql.Value {
    Sql.Convert(Sql.IntegerAffinity, Sql.Text(param))
  }

  /** Some row holds a number equal to `v`. */
  predicate Taken(rows: Rows, v: Sql.Value) {
    exists id :: id in rows && Sql.Equal(rows[id].number, v)
  }

  /** The UNIQUE constraint on `number`. */
  predicate NumbersUnique(rows: Rows) {
    forall a, b :: a in rows && b in rows && a != b ==> !Sql.Equal(rows[a].number, rows[b].number)
  }

  // ------------------------------------------------------------- QR naming

  /** The QR file POST / writes: the number as the request spelled it. */
  function QrFile(number: Js.Value): string {
    Qr.FileName(Js.ToText(number))
  }

  /** The URL the QR image encodes. */
  function QrData(number: Js.Value): string {
    Qr.Origin + "/?table=" + Js.ToText(number)
  }

  /** The `qrCodeUrl` of the answer. */
  function QrCodeUrl(number: Js.Value): string {
    Qr.QrUrl(Qr.Origin, QrFile(number))
  }

  /** The file name, the encoded URL and the image URL all carry the same
      table text: `/list-qr` reads it back from the file name, the encoded URL
      ends with it, and the image URL names that file. */
  lemma QrPartsAgree(number: Js.Value)
    requires Qr.IndexOf(Js.ToText(number), ".png").None?
    ensures Qr.TableOfFile(QrFile(number)) == Js.ToText(number)
    ensures QrData(number) == Qr.Origin + "/?table=" + Qr.TableOfFile(QrFile(number))
    ensures QrCodeUrl(number)[|Qr.Origin + Qr.FolderPath|..] == QrFile(number)
  {
    Qr.TableOfFileName(Js.ToText(number));
  }

  /** `${row.number}` for the number read back from the column; a fractional
      number is rendered by `realText`, JavaScript's number formatting. */
  function StoredText(v: Sql.Value, realText: real -> string): string {
    match v
    case Null => "null"
    case Int(i) => Js.IntText(i)
    case Real(r) => realText(r)
    case Text(t) => t
  }

  /** The QR file DELETE /:id unlinks for a row holding `v`. */
  function StoredQrFile(v: Sql.Value, realText: real -> string): string {
    Qr.FileName(StoredText(v, realText))
  }

  /** A number sent as a JSON integer, or as its decimal text, names the same
      QR file on insert and on delete. */
  lemma QrFileKept(n: int, realText: real -> string)
    ensures StoredQrFile(StoredNumber(Js.Num(n)), realText) == QrFile(Js.Num(n))
    ensures StoredQrFile(StoredNumber(Js.Str(Js.IntText(n))), realText) == QrFile(Js.Str(Js.IntText(n)))
  {
    Sql.ConvertIntText(n);
  }

  /** A number sent as "05" is stored as 5: POST / writes table_05.png and
      DELETE /:id unlinks table_5.png, leaving the first file behind. */
  lemma LeadingZeroOrphansQr(realText: real -> string)
    ensures QrFile(Js.Str("05")) == Qr.FileName("05")
    ensures StoredQrFile(StoredNumber(Js.Str("05")), realText) == Qr.FileName("5")
    ensures Qr.FileName("05") != Qr.FileName("5")
  {
    assert Js.AllDigits("05") && Js.DigitsValue("05") == 5;
    Sql.ConvertNumeral("05");
    assert Js.IntText(5) == "5";
    assert Qr.FileName("05")[6] != Qr.FileName("5")[6];
  }

  // ---------------------------------------------------------------- the store

  class Registry {
    /** JavaScript's rendering of a fractional number, which the model leaves abstract. */
    const realText: real -> string

    var rows: Rows
    var lastId: int
    var qrFiles: map<string, string>

    ghost predicate Valid()
      reads this
    {
      && 0 <= lastId
      && Sql.IdsWithin(rows.Keys, lastId)
      && NumbersUnique(rows)
      && forall id :: id in rows ==> !rows[id].number.Null? && rows[id].status == Available
    }

    constructor (realText: real -> string, qrFiles: map<string, string>)
      ensures Valid() && rows == map[] && lastId == 0
      ensures this.realText == realText && this.qrFiles == qrFiles
    {
      this.realText := realText;
      rows := map[];
      lastId := 0;
      this.qrFiles := qrFiles;
    }

    /** GET /: every table. */
    function List(): (r: Http.Reply<Rows>)
      reads this
      ensures r.status == 200 && r.body == Js.Some(rows)
    {
      Http.Reply(200, Js.Some(rows))
    }

    /** GET /:number: the table whose number equals the parameter, with its
        id (`SELECT *`), or 404. */
    method Find(param: string) returns (status: int, id: int, row: Js.Option<TableRow>)
      requires Valid()
      ensures status == 200 <==> Taken(rows, Probe(param))
      ensures status == 404 <==> !Taken(rows, Probe(param))
      ensures status == 404 ==> row.None?
      ensures status == 200 ==>
        && id in rows && Sql.Equal(rows[id].number, Probe(param)) && row == Js.Some(rows[id])
        && forall other :: other in rows && Sql.Equal(rows[other].number, Probe(param)) ==> other == id
    {
      if Taken(rows, Probe(param)) {
        id :| id in rows && Sql.Equal(rows[id].number, Probe(param));
        forall other | other in rows && Sql.Equal(rows[other].number, Probe(param))
          ensures other == id
        {
          Sql.EqualSymmetric(rows[id].number, Probe(param));
          Sql.EqualSymmetric(rows[other].number, Probe(param));
          Sql.EqualThrough(Probe(param), rows[id].number, rows[other].number);
        }
        return 200, id, Js.Some(rows[id]);
      }
      return 404, 0, Js.None;
    }

    /** POST /: insert the number, then write its QR image; `qrWritten` is
        whether the image could be written. */
    method Create(number: Js.Value, qrWritten: bool) returns (status: int, created: Js.Option<Created>)
      requires Valid()
      modifies this`rows, this`lastId, this`qrFiles
      ensures Valid()
      ensures !Js.Truthy(number) ==> status == 400
      ensures Js.Truthy(number) && Taken(old(rows), StoredNumber(number)) ==> status == 500
      ensures !Js.Truthy(number) || Taken(old(rows), StoredNumber(number)) ==>
        rows == old(rows) && lastId == old(lastId) && qrFiles == old(qrFiles) && created.None?
      ensures Js.Truthy(number) && !Taken(old(rows), StoredNumber(number)) ==>
        && lastId == old(lastId) + 1 && lastId !in old(rows)
        && rows == old(rows)[lastId := TableRow(StoredNumber(number), Available)]
        && (qrWritten ==> status == 200 && qrFiles == old(qrFiles)[QrFile(number) := QrData(number)]
                          && created == Js.Some(Created(lastId, number, Available, QrCodeUrl(number))))
        && (!qrWritten ==> status == 500 && qrFiles == old(qrFiles) && created.None?)
    {
      if !Js.Truthy(number) {
        return 400, Js.None;
      }
      var v := StoredNumber(number);
      if Taken(rows, v) {
        return 500, Js.None;
      }
      forall id | id in rows
        ensures !Sql.Equal(v, rows[id].number)
      {
        Sql.EqualSymmetric(v, rows[id].number);
      }
      lastId := lastId + 1;
      rows := rows[lastId := TableRow(v, Available)];
      if !qrWritten {
        return 500, Js.None;
      }
      qrFiles := qrFiles[QrFile(number) := QrData(number)];
      status := 200;
      created := Js.Some(Created(lastId, number, Available, QrCodeUrl(number)));
    }

    /** DELETE /:id: read the row's number, delete the row, then unlink the QR
        file named after the stored number if it exists. */
    method Delete(param: string) returns (status: int)
      requires Valid()
      modifies this`rows, this`qrFiles
      ensures Valid() && lastId == old(lastId)
      ensures status == 200 <==> Sql.Selects(old(rows), param)
      ensures status == 404 <==> !Sql.Selects(old(rows), param)
      ensures status == 404 ==> rows == old(rows) && qrFiles == old(qrFiles)
      ensures status == 200 ==>
        var k := Sql.RowId(param).value;
        rows == old(rows) - {k} && qrFiles == old(qrFiles) - {StoredQrFile(old(rows)[k].number, realText)}
    {
      if !Sql.Selects(rows, param) {
        return 404;
      }
      var k := Sql.RowId(param).value;
      var file := StoredQrFile(rows[k].number, realText);
      rows := rows - {k};
      if file in qrFiles {
        qrFiles := qrFiles - {file};
      }
      status := 200;
    }
  }

  /** Adding a table by a JSON number and deleting it by the id it was given
      leaves the registry's rows as they were and removes the new QR file. */
  method AddThenRemove(registry: Registry, n: int) returns (created: int, deleted: int)
    requires registry.Valid() && n != 0 && !Taken(registry.rows, StoredNumber(Js.Num(n)))
    modifies registry`rows, registry`lastId, registry`qrFiles
    ensures registry.Valid()
    ensures created == 200 && deleted == 200
    ensures registry.rows == old(registry.rows)
    ensures registry.qrFiles == old(registry.qrFiles) - {QrFile(Js.Num(n))}
  {
    ghost var before := registry.rows;
    ghost var files := registry.qrFiles;
    var answer;
    created, answer := registry.Create(Js.Num(n), true);
    var id := registry.lastId;
    ghost var row := TableRow(StoredNumber(Js.Num(n)), Available);
    assert registry.rows == before[id := row];
    assert registry.qrFiles == files[QrFile(Js.Num(n)) := QrData(Js.Num(n))];
    Sql.RowIdOfText(id);
    QrFileKept(n, registry.realText);
    assert StoredQrFile(registry.rows[id].number, registry.realText) == QrFile(Js.Num(n));
    deleted := registry.Delete(Js.IntText(id));
    Unadd(before, id, row);
  }

  /** Deleting a row just inserted under a fresh id restores the rows. */
  lemma Unadd(rows: Rows, k: int, row: TableRow)
    requires k !in rows
    ensures rows[k := row] - {k} == rows
  {
  }
}
