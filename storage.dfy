/**
 * The stored-PDF directory as the bot presents it: the selection menu of
 * `list_local_pdfs`, the file name carried by a `select_pdf:` button, and
 * the confirmation gate and counting of `/clear_pdfs`.
 */
module Storage {
  import opened Wrappers
  import opened Text
  import opened Paths

  /** The callback-data prefix of a stored-file button. */
  const SelectPrefix: string := "select_pdf:"

  /** At most this many stored files get a button. */
  const MenuLimit: nat := 10

  /** The stored files that get a button: the first ten of the listing. */
  function Shown(listing: seq<string>): (r: seq<string>)
    ensures |r| <= MenuLimit && (|listing| <= MenuLimit ==> r == listing)
    ensures forall i :: 0 <= i < |r| ==> r[i] == listing[i]
  {
    if |listing| <= MenuLimit then listing else listing[..MenuLimit]
  }

  /**
   * The callback data of the buttons `list_local_pdfs` shows: "upload" and
   * "url" when nothing is stored; otherwise one `select_pdf:<basename>`
   * button per shown file, then "back_to_start".
   */
  function LocalPdfMenu(listing: seq<string>): (r: seq<string>)
    ensures |r| >= 2
    ensures listing == [] ==> r == ["upload", "url"]
    ensures listing != [] ==> |r| == |Shown(listing)| + 1 && r[|r| - 1] == "back_to_start"
    ensures listing != [] ==> forall i :: 0 <= i < |r| - 1 ==> r[i] == SelectPrefix + Basename(listing[i])
  {
    if listing == [] then ["upload", "url"]
    else
      var shown := Shown(listing);
      seq(|shown|, i requires 0 <= i < |shown| => SelectPrefix + Basename(shown[i])) + ["back_to_start"]
  }

  /**
   * `data.split(":", 1)[1]`: the text after the first `:`, or None where
   * Python raises `IndexError` because there is no `:`.
   */
  function AfterFirstColon(data: string): (r: Option<string>)
    ensures r.Some? <==> ':' in data
    ensures r.Some? ==> EndsWith(data, r.value) && |r.value| < |data| && data[|data| - |r.value| - 1] == ':'
    ensures r.Some? ==> ':' !in data[..|data| - |r.value| - 1]
  {
    FindLeftmost(data, ":");
    match Find(data, ":")
    case None =>
      assert forall j :: 0 <= j < |data| ==> data[j] != ':' by {
        forall j | 0 <= j < |data| ensures data[j] != ':' {
          assert !StartsWith(data[j..], ":");
        }
      }
      None
    case Some(i) =>
      assert data[i] == ':' by { assert data[i..][..1] == ":"; }
      assert forall j :: 0 <= j < i ==> data[j] != ':' by {
        forall j | 0 <= j < i ensures data[j] != ':' {
          assert !StartsWith(data[j..], ":");
        }
      }
      Some(data[i + 1..])
  }

  /**
   * A `select_pdf:` button gives back exactly the name it was made from,
   * also when that name holds `:` itself.
   */
  lemma SelectRoundTrip(name: string)
    ensures AfterFirstColon(SelectPrefix + name) == Some(name)
  {
    assert SelectPrefix == "select_pdf" + ":";
    assert ':' !in "select_pdf";
    ColonAfterPlainPrefix("select_pdf", name);
    assert "select_pdf" + ":" + name == SelectPrefix + name;
  }

  /** Text after a colon-free prefix and one `:` is what the first colon splits off. */
  lemma ColonAfterPlainPrefix(p: string, rest: string)
    requires ':' !in p
    ensures AfterFirstColon(p + ":" + rest) == Some(rest)
  {
    var data := p + ":" + rest;
    assert data[|p|] == ':';
    var r := AfterFirstColon(data);
    var k := |data| - |r.value| - 1;
    assert ':' !in data[..k] && data[k] == ':';
    assert forall j :: 0 <= j < |p| ==> data[j] == p[j];
    assert forall j :: 0 <= j < k ==> data[j] == data[..k][j];
    assert k == |p|;
    assert data[k + 1..] == rest;
  }


  /**
   * Pressing the button of a shown file stored as `stored_pdfs/<name>`
   * selects that same path again.
   */
  lemma MenuSelectsShownFile(listing: seq<string>, i: nat, name: string)
    requires i < |Shown(listing)| && '/' !in name && listing[i] == StoredPath(name)
    ensures var data := LocalPdfMenu(listing)[i];
      StartsWith(data, SelectPrefix)
      && AfterFirstColon(data) == Some(name)
      && StoredPath(AfterFirstColon(data).value) == listing[i]
  {
    var data := LocalPdfMenu(listing)[i];
    BasenameOfJoin(StorageDir, name);
    assert data == SelectPrefix + name;
    assert data[..|SelectPrefix|] == SelectPrefix;
    SelectRoundTrip(name);
  }

  /** The reply of `/clear_pdfs`. */
  datatype ClearReply =
    | AskConfirmation          // no "confirm" argument: nothing is deleted
    | NothingToDelete          // confirmed, but no PDF is stored
    | Deleted(count: nat)      // "Deleted {count} PDF files from storage."

  /** `context.args[0].lower() == "confirm"`, with an argument present. */
  predicate Confirmed(args: seq<string>) {
    |args| > 0 && Lower(args[0]) == "confirm"
  }

  /** How many removals succeed. */
  function CountTrue(ok: seq<bool>): (r: nat)
    ensures r <= |ok|
    decreases |ok|
  {
    if ok == [] then 0 else CountTrue(ok[..|ok| - 1]) + (if ok[|ok| - 1] then 1 else 0)
  }

  /** The listed files whose removal fails, in order. */
  function Kept(listing: seq<string>, ok: seq<bool>): (r: seq<string>)
    requires |ok| == |listing|
    ensures |r| + CountTrue(ok) == |listing|
    decreases |listing|
  {
    if listing == [] then []
    else
      var n := |listing| - 1;
      Kept(listing[..n], ok[..n]) + (if ok[n] then [] else [listing[n]])
  }

  /**
   * `clear_stored_pdfs`: unless confirmed, only the warning; otherwise each
   * listed file is removed in turn (`ok[i]` says whether `os.remove`
   * succeeds) and the successes are counted.
   */
  method ClearStoredPdfs(args: seq<string>, listing: seq<string>, ok: seq<bool>) returns (reply: ClearReply, kept: seq<string>)
    requires |ok| == |listing|
    ensures !Confirmed(args) ==> reply == AskConfirmation && kept == listing
    ensures Confirmed(args) && listing == [] ==> reply == NothingToDelete && kept == []
    ensures Confirmed(args) && listing != [] ==> reply == Deleted(CountTrue(ok)) && kept == Kept(listing, ok)
    ensures reply.Deleted? ==> reply.count <= |listing| && reply.count + |kept| == |listing|
  {
    if !Confirmed(args) {
      return AskConfirmation, listing;
    }
    if listing == [] {
      return NothingToDelete, [];
    }
    var deletedCount := 0;
    kept := [];
    var i := 0;
    while i < |listing|
      invariant 0 <= i <= |listing|
      invariant deletedCount == CountTrue(ok[..i])
      invariant kept == Kept(listing[..i], ok[..i])
    {
      assert listing[..i + 1][..i] == listing[..i] && ok[..i + 1][..i] == ok[..i];
      if ok[i] {
        deletedCount := deletedCount + 1;
      } else {
        kept := kept + [listing[i]];
      }
      i := i + 1;
    }
    assert listing[..i] == listing && ok[..i] == ok;
    reply := Deleted(deletedCount);
  }

  /** When every removal succeeds, the count is the number of listed files and nothing is kept. */
  lemma {:induction false} AllRemoved(listing: seq<string>, ok: seq<bool>)
    requires |ok| == |listing| && forall i :: 0 <= i < |ok| ==> ok[i]
    ensures CountTrue(ok) == |listing| && Kept(listing, ok) == []
    decreases |listing|
  {
    if listing != [] {
      AllRemoved(listing[..|listing| - 1], ok[..|ok| - 1]);
    }
  }

  /** The kept files are exactly the listed ones whose removal failed. */
  lemma {:induction false} KeptMembership(listing: seq<string>, ok: seq<bool>, f: string)
    requires |ok| == |listing|
    ensures f in Kept(listing, ok) <==> exists i :: 0 <= i < |listing| && listing[i] == f && !ok[i]
    decreases |listing|
  {
    if listing != [] {
      var n := |listing| - 1;
      KeptMembership(listing[..n], ok[..n], f);
      if f in Kept(listing[..n], ok[..n]) {
        var i :| 0 <= i < n && listing[..n][i] == f && !ok[..n][i];
        assert listing[i] == f && !ok[i];
      }
      if exists i :: 0 <= i < |listing| && listing[i] == f && !ok[i] {
        var i :| 0 <= i < |listing| && listing[i] == f && !ok[i];
        if i < n {
          assert listing[..n][i] == f && !ok[..n][i];
        }
      }
    }
  }
}
