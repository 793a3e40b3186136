/** The browser side: the download list kept by the downloader component
    and the status shown for each entry. An entry is a JavaScript object,
    modelled as a map from property names to values; object spread is map
    union, the right operand winning. */
module Client {
  import opened Wrappers
  import opened Text
  import opened Seqs

  /** The property values the list holds. An absent property is
      `undefined`. */
  datatype Value = Str(s: string) | Num(n: int) | Bool(b: bool) | Null

  type Entry = map<string, Value>

  function Get(e: Entry, key: string): Option<Value> {
    if key in e then Some(e[key]) else None
  }

  /** JavaScript truthiness of a property. */
  predicate IsTruthy(v: Option<Value>) {
    match v
    case None => false
    case Some(Str(s)) => s != ""
    case Some(Num(n)) => n != 0
    case Some(Bool(b)) => b
    case Some(Null) => false
  }

  /** `v > 0` for the values the list holds, a string excepted. */
  predicate IsPositive(v: Option<Value>) {
    match v
    case Some(Num(n)) => n > 0
    case Some(Bool(b)) => b
    case _ => false
  }

  /** `${v}` for a present value. */
  function ToText(v: Value): string {
    match v
    case Str(s) => s
    case Num(n) => IntToString(n)
    case Bool(b) => if b then "true" else "false"
    case Null => "null"
  }

  /** `download.id === id`; an entry without an id matches only an absent
      id. */
  predicate HasId(e: Entry, id: Option<Value>) { Get(e, "id") == id }

  /** `addDownload`: the new entry goes last, with the fresh id unless the
      data carries its own, and always starts downloading at 0 with no
      speed. Returns the list and the entry's id. */
  function AddDownload(list: seq<Entry>, data: Entry, freshId: Value): (seq<Entry>, Value) {
    var entry := map["id" := freshId] + data
      + map["status" := Str("downloading"), "progress" := Num(0), "speed" := Str("")];
    (list + [entry], entry["id"])
  }

  /** The new entry is appended after the untouched list; it keeps every
      property of the data except the three the function fixes, and its id
      is the one returned. */
  lemma AddDownloadAppends(list: seq<Entry>, data: Entry, freshId: Value)
    ensures var (list', id) := AddDownload(list, data, freshId);
      && |list'| == |list| + 1
      && list'[..|list|] == list
      && var e := list'[|list|];
      && e["status"] == Str("downloading") && e["progress"] == Num(0) && e["speed"] == Str("")
      && e.Keys == data.Keys + {"id", "status", "progress", "speed"}
      && (forall k | k in data && k !in {"status", "progress", "speed"} :: e[k] == data[k])
      && HasId(e, Some(id))
      && id == (if "id" in data then data["id"] else freshId)
  {
    var (list', id) := AddDownload(list, data, freshId);
    assert list'[..|list|] == list;
  }

  /** `updateDownload`: the updates are spread over every entry with the
      id. */
  function UpdateDownload(list: seq<Entry>, id: Option<Value>, updates: Entry): (r: seq<Entry>)
    ensures |r| == |list|
  {
    if list == [] then []
    else [if HasId(list[0], id) then list[0] + updates else list[0]] + UpdateDownload(list[1..], id, updates)
  }

  /** Length and order are kept, the entries with the id take the updates
      over their own properties, and every other entry is left alone. */
  lemma {:induction false} UpdateDownloadPointwise(list: seq<Entry>, id: Option<Value>, updates: Entry)
    ensures var r := UpdateDownload(list, id, updates);
      forall i | 0 <= i < |list| ::
        && (HasId(list[i], id) ==> r[i] == list[i] + updates)
        && (!HasId(list[i], id) ==> r[i] == list[i])
  {
    if list != [] {
      UpdateDownloadPointwise(list[1..], id, updates);
      var r := UpdateDownload(list, id, updates);
      assert forall i | 1 <= i < |list| :: r[i] == UpdateDownload(list[1..], id, updates)[i - 1];
    }
  }

  /** An id no entry has changes nothing. */
  lemma {:induction false} UpdateUnknownIsIdentity(list: seq<Entry>, id: Option<Value>, updates: Entry)
    requires forall i | 0 <= i < |list| :: !HasId(list[i], id)
    ensures UpdateDownload(list, id, updates) == list
  {
    if list != [] {
      UpdateUnknownIsIdentity(list[1..], id, updates);
      assert list == [list[0]] + list[1..];
    }
  }

  /** `removeDownload`: the entries without the id, in order. */
  function RemoveDownload(list: seq<Entry>, id: Option<Value>): seq<Entry> {
    if list == [] then []
    else (if HasId(list[0], id) then [] else [list[0]]) + RemoveDownload(list[1..], id)
  }

  /** The entries kept are exactly those of the list without the id. */
  lemma {:induction false} RemoveDownloadMembers(list: seq<Entry>, id: Option<Value>)
    ensures forall e | e in RemoveDownload(list, id) :: e in list && !HasId(e, id)
    ensures forall e | e in list && !HasId(e, id) :: e in RemoveDownload(list, id)
  {
    if list != [] {
      RemoveDownloadMembers(list[1..], id);
      assert forall e | e in list :: e == list[0] || e in list[1..];
    }
  }

  /** The number of entries with the id. */
  function CountId(list: seq<Entry>, id: Option<Value>): nat {
    if list == [] then 0 else (if HasId(list[0], id) then 1 else 0) + CountId(list[1..], id)
  }

  /** Removal distributes over concatenation, so the kept entries stay in
      their relative order. */
  lemma {:induction false} RemoveDownloadKeepsOrder(a: seq<Entry>, b: seq<Entry>, id: Option<Value>)
    ensures RemoveDownload(a + b, id) == RemoveDownload(a, id) + RemoveDownload(b, id)
  {
    if a == [] {
      assert a + b == b;
    } else {
      var h: seq<Entry> := if HasId(a[0], id) then [] else [a[0]];
      SplitFirst(a, b);
      assert RemoveDownload(a + b, id) == h + RemoveDownload(a[1..] + b, id);
      RemoveDownloadKeepsOrder(a[1..], b, id);
      ConcatAssoc(h, RemoveDownload(a[1..], id), RemoveDownload(b, id));
    }
  }

  /** Exactly the entries with the id are dropped. */
  lemma {:induction false} RemoveDownloadCount(list: seq<Entry>, id: Option<Value>)
    ensures |RemoveDownload(list, id)| + CountId(list, id) == |list|
  {
    if list != [] {
      RemoveDownloadCount(list[1..], id);
    }
  }

  /** Removing an id twice is removing it once. */
  lemma {:induction false} RemoveDownloadIdempotent(list: seq<Entry>, id: Option<Value>)
    ensures RemoveDownload(RemoveDownload(list, id), id) == RemoveDownload(list, id)
  {
    if list != [] {
      RemoveDownloadIdempotent(list[1..], id);
      var rest := RemoveDownload(list[1..], id);
      if HasId(list[0], id) {
        assert RemoveDownload(list, id) == rest;
        assert RemoveDownload(rest, id) == rest;
      } else {
        var r := [list[0]] + rest;
        assert r[0] == list[0] && r[1..] == rest;
        assert RemoveDownload(r, id) == [list[0]] + RemoveDownload(rest, id);
      }
    }
  }

  /** `getStatusColor`. */
  function StatusColor(status: Option<Value>): string {
    if status == Some(Str("downloading")) then "text-blue-400"
    else if status == Some(Str("completed")) then "text-green-400"
    else if status == Some(Str("error")) then "text-red-400"
    else "text-gray-400"
  }

  /** `getStatusText`. */
  function StatusText(e: Entry): string {
    var status := Get(e, "status");
    if status == Some(Str("downloading")) then
      if IsPositive(Get(e, "progress")) then ToText(e["progress"]) + "%" else "Preparing..."
    else if status == Some(Str("completed")) then "File saved successfully"
    else if status == Some(Str("error")) then
      if IsTruthy(Get(e, "error")) then ToText(e["error"]) else "Download failed"
    else "Unknown status"
  }

  /** The progress bar is drawn for a running download that has made
      progress. */
  predicate ProgressBarShown(e: Entry) {
    Get(e, "status") == Some(Str("downloading")) && IsPositive(Get(e, "progress"))
  }

  /** The speed is shown when there is one. */
  predicate SpeedShown(e: Entry) { IsTruthy(Get(e, "speed")) }

  /** The three known states have three different colours and every other
      status is grey. */
  lemma StatusColorDistinguishes(s: Option<Value>, t: Option<Value>)
    ensures StatusColor(s) == "text-gray-400" <==>
      s !in {Some(Str("downloading")), Some(Str("completed")), Some(Str("error"))}
    ensures StatusColor(s) == StatusColor(t) && StatusColor(s) != "text-gray-400" ==> s == t
  {}

  /** The bar and the percentage go together: a running download shows a
      percentage exactly when it shows the bar, and `Preparing...`
      otherwise. */
  lemma BarIffPercentage(e: Entry)
    requires Get(e, "status") == Some(Str("downloading"))
    ensures ProgressBarShown(e) <==> StatusText(e) != "Preparing..."
    ensures ProgressBarShown(e) ==> StatusText(e) == ToText(e["progress"]) + "%"
  {
    if ProgressBarShown(e) {
      assert StatusText(e)[|StatusText(e)| - 1] == '%';
    }
  }

  /** An entry just added reads `Preparing...` in blue, without a bar and
      without a speed. */
  lemma NewEntryPreparing(list: seq<Entry>, data: Entry, freshId: Value)
    ensures var e := AddDownload(list, data, freshId).0[|list|];
      && StatusText(e) == "Preparing..." && StatusColor(Get(e, "status")) == "text-blue-400"
      && !ProgressBarShown(e) && !SpeedShown(e)
  {
    AddDownloadAppends(list, data, freshId);
  }

  /** A failed entry shows its message, or `Download failed` without
      one. */
  lemma ErrorText(e: Entry)
    requires Get(e, "status") == Some(Str("error"))
    ensures IsTruthy(Get(e, "error")) ==> StatusText(e) == ToText(e["error"])
    ensures !IsTruthy(Get(e, "error")) ==> StatusText(e) == "Download failed"
    ensures StatusText(e) != ""
  {}
}
