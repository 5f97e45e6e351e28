/** The handlers server.js defines itself: `/generate-qr/:table` and
    `/list-qr` (the same QR naming as routes/qr.js, under a base URL built
    from the configured port), the error middleware and logout. */
module Server {
  import Js
  import Http
  import Qr

  /** `process.env.PORT || 5000`: an unset or empty PORT falls back to 5000. */
  function Port(env: Js.Option<string>): (port: string)
    ensures env.Some? && env.value != "" ==> port == env.value
    ensures env.None? || env.value == "" ==> port == "5000"
  {
    if env.Some? && env.value != "" then env.value else "5000"
  }

  function BaseUrl(port: string): string {
    "http://localhost:" + port
  }

  /** Without PORT, server.js serves the origin routes/qr.js and
      routes/tables.js write into their URLs. */
  lemma DefaultBaseUrl()
    ensures BaseUrl(Port(Js.None)) == Qr.Origin
  {
  }

  // ------------------------------------------------------------ generate-qr

  /** What `QRCode.toFile` is asked to write: a file of the QR folder and the URL it encodes. */
  datatype QrWrite = QrWrite(file: string, data: string)

  function GenerateWrite(port: string, table: string): (w: QrWrite)
    ensures w.file == Qr.FileName(table)
    ensures w.data == BaseUrl(port) + "/?table=" + table
  {
    QrWrite(Qr.FileName(table), BaseUrl(port) + "/?table=" + table)
  }

  /** GET /generate-qr/:table; `written` is whether the image could be written. */
  function Generate(port: string, table: string, written: bool): (r: Http.Reply<Qr.Entry>)
    ensures written ==> r.status == 200 && r.body.Some?
    ensures written ==> r.body.value.table == table
    ensures written ==> r.body.value.qrCodeUrl == Qr.QrUrl(BaseUrl(port), GenerateWrite(port, table).file)
    ensures !written ==> r.status == 500 && r.body.None?
  {
    if written then Http.Reply(200, Js.Some(Qr.Entry(table, BaseUrl(port) + Qr.FolderPath + Qr.FileName(table))))
    else Http.Reply(500, Js.None)
  }

  // ---------------------------------------------------------------- list-qr

  /** GET /list-qr of server.js. */
  function ListQr(port: string, listing: Js.Option<seq<string>>): Http.Reply<seq<Qr.Entry>> {
    Qr.ListAt(BaseUrl(port), listing)
  }

  /** With the default port, server.js's /list-qr answers as routes/qr.js's does. */
  lemma ListQrAsRoute(listing: Js.Option<seq<string>>)
    ensures ListQr(Port(Js.None), listing) == Qr.ListQr(listing)
  {
    DefaultBaseUrl();
  }

  /** Generate, then list: wherever the generated file appears in the folder,
      the listing reports the entry generate answered with, table included. */
  lemma GenerateThenList(port: string, table: string, files: seq<string>, i: int)
    requires Qr.IndexOf(table, ".png").None?
    requires 0 <= i < |files| && files[i] == GenerateWrite(port, table).file
    ensures ListQr(port, Js.Some(files)).body.value[i] == Generate(port, table, true).body.value
  {
    Qr.TableOfFileName(table);
  }

  // ------------------------------------------------------------ middleware

  /** An error passed to `next`: its `status` and `message` properties. */
  datatype Failure = Failure(status: Js.Value, message: Js.Value)

  /** The status and the `error` text the error middleware answers with. */
  datatype ErrorAnswer = ErrorAnswer(status: Js.Value, error: Js.Value)

  function OnError(err: Failure): (r: ErrorAnswer)
    ensures Js.Truthy(err.status) ==> r.status == err.status
    ensures !Js.Truthy(err.status) ==> r.status == Js.Num(500)
    ensures Js.Truthy(err.message) ==> r.error == err.message
    ensures !Js.Truthy(err.message) ==> r.error == Js.Str("Internal Server Error")
  {
    ErrorAnswer(
      if Js.Truthy(err.status) then err.status else Js.Num(500),
      if Js.Truthy(err.message) then err.message else Js.Str("Internal Server Error"))
  }

  /** An error without a status, or with status 0, is answered as a server error. */
  lemma UnsetStatusIsServerError(message: Js.Value)
    ensures OnError(Failure(Js.Undefined, message)).status == Js.Num(500)
    ensures OnError(Failure(Js.Num(0), message)).status == Js.Num(500)
  {
  }

  // ----------------------------------------------------------------- logout

  /** The body of the logout answer. */
  datatype Ack = Ack(success: bool)

  /** POST /api/auth/logout: always 200 with success; it takes no input and
      keeps no state, so it cannot change any store. */
  function Logout(): (r: Http.Reply<Ack>)
    ensures r.status == 200 && r.body == Js.Some(Ack(true))
  {
    Http.Reply(200, Js.Some(Ack(true)))
  }
}
