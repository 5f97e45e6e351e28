/** The QR-code files of routes/qr.js: a table's QR image is stored as
    `table_<n>.png` in uploads/qr_codes, and `/list-qr` turns each file name
    of that folder back into a table and the URL the image is served at. */
module Qr {
  import Js
  import Http

  /** The origin routes/qr.js and routes/tables.js write into their URLs. */
  const Origin := "http://localhost:5000"

  /** Where the QR folder is served, below an origin. */
  const FolderPath := "/uploads/qr_codes/"

  /** The file name of the QR image of table `table`. */
  function FileName(table: string): string {
    "table_" + table + ".png"
  }

  /** The URL the file `file` of the QR folder is served at. */
  function QrUrl(base: string, file: string): (url: string)
    ensures |url| >= |base + FolderPath| && url[|base + FolderPath|..] == file
  {
    base + FolderPath + file
  }

  // ------------------------------------------------- String.prototype.replace

  /** `pat` occurs in `s` at position `i`. */
  predicate OccursAt(s: string, pat: string, i: nat) {
    i + |pat| <= |s| && s[i..i + |pat|] == pat
  }

  /** The first position at or after `from` where `pat` occurs in `s`. */
  function IndexFrom(s: string, pat: string, from: nat): (r: Js.Option<nat>)
    requires from <= |s|
    ensures r.Some? ==> from <= r.value && OccursAt(s, pat, r.value)
    ensures forall j: nat :: from <= j && (r.None? || j < r.value) ==> !OccursAt(s, pat, j)
    decreases |s| - from
  {
    if OccursAt(s, pat, from) then Js.Some(from)
    else if from == |s| then Js.None
    else IndexFrom(s, pat, from + 1)
  }

  /** `s.indexOf(pat)`: the first occurrence of `pat` in `s`. */
  function IndexOf(s: string, pat: string): (r: Js.Option<nat>)
    ensures r.Some? ==> OccursAt(s, pat, r.value)
    ensures forall j: nat :: (r.None? || j < r.value) ==> !OccursAt(s, pat, j)
  {
    IndexFrom(s, pat, 0)
  }

  /** `s.replace(pat, "")`: with a string pattern only the first occurrence is
      removed, and `s` is returned unchanged when `pat` does not occur. */
  function RemoveFirst(s: string, pat: string): (r: string)
    ensures IndexOf(s, pat).None? ==> r == s
    ensures IndexOf(s, pat).Some? ==>
      var i := IndexOf(s, pat).value; r == s[..i] + s[i + |pat|..]
  {
    match IndexOf(s, pat)
    case None => s
    case Some(i) => s[..i] + s[i + |pat|..]
  }

  /** The table `/list-qr` reports for a file name. */
  function TableOfFile(file: string): string {
    RemoveFirst(RemoveFirst(file, "table_"), ".png")
  }

  // ---------------------------------------------------------- the round trip

  /** A pattern occurs where it starts the string. */
  lemma IndexOfPrefix(pat: string, rest: string)
    ensures IndexOf(pat + rest, pat) == Js.Some(0)
  {
    assert OccursAt(pat + rest, pat, 0) by {
      assert (pat + rest)[..|pat|] == pat;
    }
  }

  /** Removing a pattern from a string it starts leaves the rest. */
  lemma RemoveFirstPrefix(pat: string, rest: string)
    ensures RemoveFirst(pat + rest, pat) == rest
  {
    IndexOfPrefix(pat, rest);
    assert (pat + rest)[|pat|..] == rest;
  }

  /** The first ".png" of `n + ".png"` is the appended one when `n` holds none:
      no proper suffix of ".png" starts with its first character. */
  lemma IndexOfPngSuffix(n: string)
    requires IndexOf(n, ".png").None?
    ensures IndexOf(n + ".png", ".png") == Js.Some(|n|)
  {
    var s := n + ".png";
    assert OccursAt(s, ".png", |n|) by {
      assert s[|n|..|n| + 4] == ".png";
    }
    forall j: nat | j < |n|
      ensures !OccursAt(s, ".png", j)
    {
      if j + 4 <= |n| {
        assert s[j..j + 4] == n[j..j + 4];
        assert !OccursAt(n, ".png", j);
      } else if j + 4 <= |s| {
        var k := |n| - j;
        assert s[j..j + 4][k] == s[|n|] == '.';
        assert ".png"[k] != '.';
      }
    }
  }

  /** `/list-qr` reads back the table of every file `FileName` writes for a
      table text without ".png" (some texts with it, such as "a.png", are
      read back too). */
  lemma {:induction false} TableOfFileName(n: string)
    requires IndexOf(n, ".png").None?
    ensures TableOfFile(FileName(n)) == n
  {
    assert FileName(n) == "table_" + (n + ".png");
    RemoveFirstPrefix("table_", n + ".png");
    IndexOfPngSuffix(n);
    var s := n + ".png";
    assert s[..|n|] + s[|n| + 4..] == n;
  }

  /** A table text that is ".png" followed by a non-empty text not starting
      with "." is not read back: the table ".pngx" is listed as "x.png". */
  lemma TableOfFileNameWithPng(n: string, m: string)
    requires n == ".png" + m && m != [] && m[0] != '.'
    ensures TableOfFile(FileName(n)) == m + ".png" != n
  {
    var t := m + ".png";
    assert n + ".png" == ".png" + t;
    assert FileName(n) == "table_" + (n + ".png");
    RemoveFirstPrefix("table_", n + ".png");
    RemoveFirstPrefix(".png", t);
    assert t[0] != n[0];
  }

  /** A numeral, with or without its sign, contains no ".png". */
  lemma NoPngInIntText(n: int)
    ensures IndexOf(Js.IntText(n), ".png").None?
  {
    var s := Js.IntText(n);
    var m: nat := if n < 0 then -n else n;
    assert forall i :: 0 <= i < |s| ==> s[i] != '.' by {
      forall i | 0 <= i < |s|
        ensures s[i] != '.'
      {
        if n < 0 && i > 0 {
          assert s[i] == Js.NatText(m)[i - 1];
        }
      }
    }
    forall j: nat
      ensures !OccursAt(s, ".png", j)
    {
      if j + 4 <= |s| {
        assert s[j..j + 4][0] == s[j] != '.';
      }
    }
  }

  // ------------------------------------------------------------------ listing

  /** One element of the `/list-qr` answer. */
  datatype Entry = Entry(table: string, qrCodeUrl: string)

  /** The entry of one file: the table read back from its name, and a URL
      that gives the name back. */
  function EntryOf(base: string, file: string): (e: Entry)
    ensures e.table == TableOfFile(file)
    ensures |e.qrCodeUrl| >= |base + FolderPath| && e.qrCodeUrl[|base + FolderPath|..] == file
  {
    Entry(TableOfFile(file), QrUrl(base, file))
  }

  /** `files.map(...)`: one entry per file, in the folder's order, none skipped. */
  function Entries(base: string, files: seq<string>): (r: seq<Entry>)
    ensures |r| == |files|
    ensures forall i :: 0 <= i < |files| ==> r[i] == EntryOf(base, files[i])
  {
    if files == [] then [] else [EntryOf(base, files[0])] + Entries(base, files[1..])
  }

  /** Different files are listed with different URLs, so the listing names
      each file of the folder: the URL gives the file name back. */
  lemma EntriesNameTheirFiles(base: string, files: seq<string>, i: int)
    requires 0 <= i < |files|
    ensures Entries(base, files)[i].qrCodeUrl[|base + FolderPath|..] == files[i]
  {
  }

  /** The `/list-qr` handler over the result of reading the folder; `None` is
      a folder that cannot be read. */
  function ListAt(base: string, listing: Js.Option<seq<string>>): (r: Http.Reply<seq<Entry>>)
    ensures listing.None? ==> r.status == 500 && r.body.None?
    ensures listing.Some? ==> r.status == 200 && r.body == Js.Some(Entries(base, listing.value))
  {
    match listing
    case None => Http.Reply(500, Js.None)
    case Some(files) => Http.Reply(200, Js.Some(Entries(base, files)))
  }

  /** GET /list-qr of routes/qr.js. */
  function ListQr(listing: Js.Option<seq<string>>): Http.Reply<seq<Entry>> {
    ListAt(Origin, listing)
  }

  /** A listing of the files written for tables `ns` reports exactly those tables, in order. */
  lemma {:induction false} ListQrOfTables(ns: seq<string>)
    requires forall i :: 0 <= i < |ns| ==> IndexOf(ns[i], ".png").None?
    ensures ListQr(Js.Some(seq(|ns|, i requires 0 <= i < |ns| => FileName(ns[i])))).body.value
            == seq(|ns|, i requires 0 <= i < |ns| => Entry(ns[i], QrUrl(Origin, FileName(ns[i]))))
  {
    var files := seq(|ns|, i requires 0 <= i < |ns| => FileName(ns[i]));
    var es := Entries(Origin, files);
    forall i | 0 <= i < |ns|
      ensures es[i] == Entry(ns[i], QrUrl(Origin, FileName(ns[i])))
    {
      TableOfFileName(ns[i]);
    }
  }
}
