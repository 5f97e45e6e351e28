/** The order ledger of routes/orders.js. Each order carries two independent
    one-way flags: `status` (set to 'delivered' by PUT /:id/delivery) and
    `payment_status` (set to 'paid' by PUT /:id/payment). The ledger is a map
    from id to row; `lastId` is the AUTOINCREMENT sequence. */
module Orders {
  import Js
  import Sql
  import Http

  /** A row of `orders`; `items` is the snapshot of the submitted list. */
  datatype Order<Item> = Order(
    tableNumber: Sql.Value,
    items: seq<Item>,
    totalAmount: Sql.Value,
    date: string,
    status: Sql.Value,
    paymentStatus: Sql.Value)

  /** The JSON body of POST /; `items` is `None` when it is absent or falsy. */
  datatype Request<Item> = Request(table: Js.Value, items: Js.Option<seq<Item>>, totalAmount: Js.Value)

  /** The 201 reply: the new id and the submitted fields, echoed. */
  datatype Receipt<Item> = Receipt(id: int, table: Js.Value, items: seq<Item>, totalAmount: Js.Value)

  /** The columns GET /paid-orders selects. */
  datatype PaidOrder<Item> = PaidOrder(tableNumber: Sql.Value, items: seq<Item>, totalAmount: Sql.Value, date: string)

  type Rows<Item> = map<int, Order<Item>>

  const PaidText: Sql.Value := Sql.Text("paid")
  const DeliveredText: Sql.Value := Sql.Text("delivered")

  /** POST / refuses the body: a falsy table, no or empty items, or a falsy or
      non-positive total. */
  predicate Rejected<Item>(req: Request<Item>) {
    || !Js.Truthy(req.table)
    || req.items.None? || |req.items.value| == 0
    || !Js.Truthy(req.totalAmount) || Js.AtMostZero(req.totalAmount)
  }

  /** `after` is `before` moved along the two one-way flags: the content of the
      order is the same, `status` is kept or becomes 'delivered', and
      `payment_status` is kept or becomes 'paid'. */
  ghost predicate Evolves<Item>(before: Order<Item>, after: Order<Item>) {
    && after.tableNumber == before.tableNumber
    && after.items == before.items
    && after.totalAmount == before.totalAmount
    && after.date == before.date
    && (after.status == before.status || after.status == DeliveredText)
    && (after.paymentStatus == before.paymentStatus || after.paymentStatus == PaidText)
  }

  /** Every order present in both ledgers has only moved along its flags. */
  ghost predicate Progress<Item>(before: Rows<Item>, after: Rows<Item>) {
    forall id :: id in before && id in after ==> Evolves(before[id], after[id])
  }

  lemma ProgressTransitive<Item>(a: Rows<Item>, b: Rows<Item>, c: Rows<Item>)
    requires Progress(a, b) && Progress(b, c)
    requires forall id :: id in a && id in c ==> id in b
    ensures Progress(a, c)
  {
    forall id | id in a && id in c ensures Evolves(a[id], c[id]) {
      assert Evolves(a[id], b[id]) && Evolves(b[id], c[id]);
    }
  }

  // ------------------------------------------------------------ transitions

  /** UPDATE orders SET payment_status = 'paid' WHERE id = k. */
  function MarkPaid<Item>(rows: Rows<Item>, k: int): (r: Rows<Item>)
    ensures r.Keys == rows.Keys
    ensures forall j :: j in rows && j != k ==> r[j] == rows[j]
    ensures k in rows ==> r[k].paymentStatus == PaidText && r[k].status == rows[k].status
    ensures Progress(rows, r)
  {
    if k in rows then rows[k := rows[k].(paymentStatus := PaidText)] else rows
  }

  /** UPDATE orders SET status = 'delivered' WHERE id = k. */
  function MarkDelivered<Item>(rows: Rows<Item>, k: int): (r: Rows<Item>)
    ensures r.Keys == rows.Keys
    ensures forall j :: j in rows && j != k ==> r[j] == rows[j]
    ensures k in rows ==> r[k].status == DeliveredText && r[k].paymentStatus == rows[k].paymentStatus
    ensures Progress(rows, r)
  {
    if k in rows then rows[k := rows[k].(status := DeliveredText)] else rows
  }

  /** A repeated payment or delivery leaves the state of the first one. */
  lemma MarkIdempotent<Item>(rows: Rows<Item>, k: int)
    ensures MarkPaid(MarkPaid(rows, k), k) == MarkPaid(rows, k)
    ensures MarkDelivered(MarkDelivered(rows, k), k) == MarkDelivered(rows, k)
  {
  }

  /** The two flags are independent: their updates commute. */
  lemma MarksCommute<Item>(rows: Rows<Item>, j: int, k: int)
    ensures MarkPaid(MarkDelivered(rows, j), k) == MarkDelivered(MarkPaid(rows, k), j)
  {
  }

  /** The ids `WHERE table_number = t` matches. */
  function TableMatches<Item>(rows: Rows<Item>, t: Sql.Value): (ids: set<int>)
    ensures forall id :: id in ids <==> id in rows && Sql.Equal(rows[id].tableNumber, t)
  {
    set id | id in rows && Sql.Equal(rows[id].tableNumber, t)
  }

  /** DELETE FROM orders WHERE table_number = t. */
  function WithoutTable<Item>(rows: Rows<Item>, t: Sql.Value): (r: Rows<Item>)
    ensures forall id :: id in r ==> id in rows && r[id] == rows[id] && !Sql.Equal(r[id].tableNumber, t)
    ensures forall id :: id in rows && !Sql.Equal(rows[id].tableNumber, t) ==> id in r
    ensures |r| == |rows| - |TableMatches(rows, t)|
  {
    var gone := TableMatches(rows, t);
    assert gone <= rows.Keys;
    assert (rows - gone).Keys == rows.Keys - gone;
    rows - gone
  }

  // ---------------------------------------------------------------- queries

  /** GET /: SELECT * FROM orders WHERE status != 'paid', as written. */
  function ListOrdersAsWritten<Item>(rows: Rows<Item>): (r: Rows<Item>)
    ensures forall id :: id in r <==> id in rows && Sql.NotEqual(rows[id].status, PaidText)
    ensures forall id :: id in r ==> r[id] == rows[id]
  {
    map id | id in rows && Sql.NotEqual(rows[id].status, PaidText) :: rows[id]
  }

  /** GET / as its comment describes it: the orders not yet paid. */
  function ListUnpaid<Item>(rows: Rows<Item>): (r: Rows<Item>)
    ensures forall id :: id in r <==> id in rows && Sql.NotEqual(rows[id].paymentStatus, PaidText)
    ensures forall id :: id in r ==> r[id] == rows[id]
  {
    map id | id in rows && Sql.NotEqual(rows[id].paymentStatus, PaidText) :: rows[id]
  }

  /** No route sets `status` to 'paid', so the filter as written never drops a
      paid order: paying for an order keeps it in GET /. */
  lemma PaidOrderStillListed<Item>(rows: Rows<Item>, k: int)
    requires k in ListOrdersAsWritten(rows)
    ensures k in ListOrdersAsWritten(MarkPaid(rows, k))
    ensures MarkPaid(rows, k)[k].paymentStatus == PaidText
  {
  }

  /** A concrete ledger that shows it: one pending order, paid, still listed. */
  lemma PaidOrderStillListedExample()
    ensures var rows: Rows<int> := map[1 := Order(Sql.Int(5), [7], Sql.Int(70), "d", Sql.Text("pending"), Sql.Text("unpaid"))];
            1 in ListOrdersAsWritten(MarkPaid(rows, 1)) && MarkPaid(rows, 1)[1].paymentStatus == PaidText
  {
    var rows: Rows<int> := map[1 := Order(Sql.Int(5), [7], Sql.Int(70), "d", Sql.Text("pending"), Sql.Text("unpaid"))];
    PaidOrderStillListed(rows, 1);
  }

  /** With the corrected filter, a paid order leaves the list and nothing else does. */
  lemma PaidOrderNotListed<Item>(rows: Rows<Item>, k: int)
    requires k in rows
    ensures k !in ListUnpaid(MarkPaid(rows, k))
    ensures forall j :: j != k ==> (j in ListUnpaid(MarkPaid(rows, k)) <==> j in ListUnpaid(rows))
  {
  }

  /** GET /paid-orders: the paid orders, projected on the selected columns;
      404 when there are none. */
  function ListPaid<Item>(rows: Rows<Item>): (r: Http.Reply<map<int, PaidOrder<Item>>>)
    ensures r.status == 200 || r.status == 404
    ensures r.status == 404 <==> forall id :: id in rows ==> !Sql.Equal(rows[id].paymentStatus, PaidText)
    ensures r.status == 200 ==> r.body.Some? && forall id ::
      (id in r.body.value <==> id in rows && Sql.Equal(rows[id].paymentStatus, PaidText))
    ensures r.status == 200 ==> forall id :: id in r.body.value ==>
      var o := rows[id]; r.body.value[id] == PaidOrder(o.tableNumber, o.items, o.totalAmount, o.date)
  {
    if forall id :: id in rows ==> !Sql.Equal(rows[id].paymentStatus, PaidText) then
      Http.Reply(404, Js.None)
    else
      Http.Reply(200, Js.Some(map id | id in rows && Sql.Equal(rows[id].paymentStatus, PaidText) ::
        PaidOrder(rows[id].tableNumber, rows[id].items, rows[id].totalAmount, rows[id].date)))
  }

  /** A paid order is reported by GET /paid-orders. */
  lemma PayThenListPaid<Item>(rows: Rows<Item>, k: int)
    requires k in rows
    ensures ListPaid(MarkPaid(rows, k)).status == 200
    ensures k in ListPaid(MarkPaid(rows, k)).body.value
  {
    assert Sql.Equal(MarkPaid(rows, k)[k].paymentStatus, PaidText);
  }

  /** GET /:id: the row with that id, 404 when absent, 403 off localhost. */
  function GetOrder<Item>(hostname: string, rows: Rows<Item>, id: string): (r: Http.Reply<Order<Item>>)
    ensures r.status == 403 <==> !Http.FromLocalhost(hostname)
    ensures r.status == 404 <==> Http.FromLocalhost(hostname) && !Sql.Selects(rows, id)
    ensures r.status == 200 <==> Http.FromLocalhost(hostname) && Sql.Selects(rows, id)
    ensures r.status == 200 ==> r.body == Js.Some(rows[Sql.RowId(id).value])
  {
    if !Http.FromLocalhost(hostname) then Http.Reply(403, Js.None)
    else if !Sql.Selects(rows, id) then Http.Reply(404, Js.None)
    else Http.Reply(200, Js.Some(rows[Sql.RowId(id).value]))
  }

  // ---------------------------------------------------------------- the store

  class Ledger<Item> {
    /** The column affinity of `table_number`, and the column defaults of
        `status` and `payment_status`: the `orders` schema is not part of this
        model, so they are parameters. */
    const tableAffinity: Sql.Affinity
    const defaultStatus: Sql.Value
    const defaultPaymentStatus: Sql.Value

    var rows: Rows<Item>
    var lastId: int

    ghost predicate Valid()
      reads this
    {
      0 <= lastId && Sql.IdsWithin(rows.Keys, lastId)
    }

    constructor (tableAffinity: Sql.Affinity, defaultStatus: Sql.Value, defaultPaymentStatus: Sql.Value)
      ensures Valid() && rows == map[] && lastId == 0
      ensures this.tableAffinity == tableAffinity
      ensures this.defaultStatus == defaultStatus && this.defaultPaymentStatus == defaultPaymentStatus
    {
      this.tableAffinity := tableAffinity;
      this.defaultStatus := defaultStatus;
      this.defaultPaymentStatus := defaultPaymentStatus;
      rows := map[];
      lastId := 0;
    }

    /** The value `table_number = ?` compares with, and that an insert stores. */
    function TableKey(table: Js.Value): Sql.Value
      reads this
    {
      Sql.Convert(tableAffinity, Sql.Bind(table))
    }

    /** The row an accepted POST / inserts. */
    function NewOrder(req: Request<Item>, now: string): (o: Order<Item>)
      requires !Rejected(req)
      reads this
      ensures o.tableNumber == TableKey(req.table) && o.totalAmount == Sql.Bind(req.totalAmount)
      ensures o.items == req.items.value && o.date == now
      ensures o.status == defaultStatus && o.paymentStatus == defaultPaymentStatus
    {
      Order(TableKey(req.table), req.items.value, Sql.Bind(req.totalAmount), now, defaultStatus, defaultPaymentStatus)
    }

    /** POST /: validate, then insert one row with a fresh id. */
    method Create(hostname: string, req: Request<Item>, now: string) returns (status: int, receipt: Js.Option<Receipt<Item>>)
      requires Valid()
      modifies this`rows, this`lastId
      ensures Valid()
      ensures status == 403 <==> !Http.FromLocalhost(hostname)
      ensures status == 400 <==> Http.FromLocalhost(hostname) && Rejected(req)
      ensures status == 201 <==> Http.FromLocalhost(hostname) && !Rejected(req)
      ensures status != 201 ==> rows == old(rows) && lastId == old(lastId) && receipt.None?
      ensures status == 201 ==>
        && lastId == old(lastId) + 1 && lastId !in old(rows)
        && rows == old(rows)[lastId := NewOrder(req, now)]
        && receipt == Js.Some(Receipt(lastId, req.table, req.items.value, req.totalAmount))
      ensures Progress(old(rows), rows)
    {
      if !Http.FromLocalhost(hostname) {
        return 403, Js.None;
      }
      if Rejected(req) {
        return 400, Js.None;
      }
      lastId := lastId + 1;
      rows := rows[lastId := NewOrder(req, now)];
      status, receipt := 201, Js.Some(Receipt(lastId, req.table, req.items.value, req.totalAmount));
    }

    /** PUT /:id/payment. */
    method Pay(id: string) returns (status: int)
      requires Valid()
      modifies this`rows
      ensures Valid()
      ensures status == 200 <==> Sql.Selects(old(rows), id)
      ensures status == 404 <==> !Sql.Selects(old(rows), id)
      ensures rows == if status == 200 then MarkPaid(old(rows), Sql.RowId(id).value) else old(rows)
      ensures Progress(old(rows), rows)
    {
      var k := Sql.RowId(id);
      if k.Some? && k.value in rows {
        rows := MarkPaid(rows, k.value);
        status := 200;
      } else {
        status := 404;
      }
    }

    /** PUT /:id/delivery. */
    method Deliver(id: string) returns (status: int)
      requires Valid()
      modifies this`rows
      ensures Valid()
      ensures status == 200 <==> Sql.Selects(old(rows), id)
      ensures status == 404 <==> !Sql.Selects(old(rows), id)
      ensures rows == if status == 200 then MarkDelivered(old(rows), Sql.RowId(id).value) else old(rows)
      ensures Progress(old(rows), rows)
    {
      var k := Sql.RowId(id);
      if k.Some? && k.value in rows {
        rows := MarkDelivered(rows, k.value);
        status := 200;
      } else {
        status := 404;
      }
    }

    /** DELETE /?table=t: every order of that table; 404 when there was none. */
    method DeleteForTable(hostname: string, table: Js.Value) returns (status: int)
      requires Valid()
      modifies this`rows
      ensures Valid()
      ensures status == 403 <==> !Http.FromLocalhost(hostname)
      ensures status == 400 <==> Http.FromLocalhost(hostname) && !Js.Truthy(table)
      ensures status == 404 <==> Http.FromLocalhost(hostname) && Js.Truthy(table) && TableMatches(old(rows), TableKey(table)) == {}
      ensures status == 200 <==> Http.FromLocalhost(hostname) && Js.Truthy(table) && TableMatches(old(rows), TableKey(table)) != {}
      ensures rows == if status == 200 then WithoutTable(old(rows), TableKey(table)) else old(rows)
      ensures Progress(old(rows), rows)
    {
      if !Http.FromLocalhost(hostname) {
        return 403;
      }
      if !Js.Truthy(table) {
        return 400;
      }
      var matched := TableMatches(rows, TableKey(table));
      if matched == {} {
        return 404;
      }
      rows := WithoutTable(rows, TableKey(table));
      status := 200;
    }

    /** DELETE /:id. */
    method Delete(hostname: string, id: string) returns (status: int)
      requires Valid()
      modifies this`rows
      ensures Valid()
      ensures status == 403 <==> !Http.FromLocalhost(hostname)
      ensures status == 404 <==> Http.FromLocalhost(hostname) && !Sql.Selects(old(rows), id)
      ensures status == 200 <==> Http.FromLocalhost(hostname) && Sql.Selects(old(rows), id)
      ensures rows == if status == 200 then old(rows) - {Sql.RowId(id).value} else old(rows)
      ensures Progress(old(rows), rows)
    {
      if !Http.FromLocalhost(hostname) {
        return 403;
      }
      var k := Sql.RowId(id);
      if k.Some? && k.value in rows {
        rows := rows - {k.value};
        status := 200;
      } else {
        status := 404;
      }
    }
  }

  /** Two payments in a row: the second answers 200 and changes nothing. */
  method PayTwice<Item>(ledger: Ledger<Item>, id: string) returns (first: int, second: int)
    requires ledger.Valid()
    modifies ledger`rows
    ensures ledger.Valid()
    ensures first == 200 <==> Sql.Selects(old(ledger.rows), id)
    ensures first == 200 ==> second == 200
    ensures first == 200 ==> ledger.rows == MarkPaid(old(ledger.rows), Sql.RowId(id).value)
  {
    first := ledger.Pay(id);
    second := ledger.Pay(id);
    if first == 200 {
      MarkIdempotent(old(ledger.rows), Sql.RowId(id).value);
    }
  }
}
