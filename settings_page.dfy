/**
 * Export and import on the settings page (settings-page.tsx). Export wraps
 * the stored tasks in a bundle, prints it as JSON text and turns the text
 * into a token with `btoa(unescape(encodeURIComponent(text)))`, that is
 * UTF-8 then Base64. Import reverses the chain, checks the payload's shape,
 * keeps the tasks that pass a structural filter and, once the user confirms,
 * replaces the stored tasks. `JSON.stringify` and `JSON.parse` are library
 * calls and come in as function parameters; the clipboard and the
 * confirmation dialog come in as booleans.
 */
module SettingsPage {
  import opened Wrappers
  import opened Text
  import opened Json
  import Utf8
  import Base64

  /** Why an import failed. The page shows one message for blank input and one for every other failure. */
  datatype ImportError =
    | EmptyInput      // blank text, rejected before decoding
    | MalformedToken  // `atob` throws
    | MalformedText   // `decodeURIComponent` throws: the bytes are not UTF-8
    | MalformedJson   // `JSON.parse` throws
    | InvalidShape    // no `tasks` array, or a task that is null
    | NoValidTasks    // no task passes the filter

  /** The message line under the import box. */
  datatype Message =
    | NoMessage
    | CopiedToClipboard
    | CopyFailed
    | EnterData
    | Imported(count: nat)
    | ImportFailed

  /** The exported object: the stored tasks (an empty list when nothing is stored), the export time and format version "1.0". */
  function ExportBundle(stored: Option<Json>, exportDate: string): (b: Json)
    ensures b.JObject? && |b.members| == 3
    ensures Lookup(b.members, "tasks") == Some(if stored.Some? then stored.value else JArray([]))
    ensures Lookup(b.members, "exportDate") == Some(JString(exportDate))
    ensures Lookup(b.members, "version") == Some(JString("1.0"))
  {
    var members := [("tasks", if stored.Some? then stored.value else JArray([])),
                    ("exportDate", JString(exportDate)),
                    ("version", JString("1.0"))];
    assert members[..2][..1] == [members[0]];
    assert Lookup(members, "tasks") == Lookup(members[..2], "tasks") == Lookup(members[..2][..1], "tasks");
    assert Lookup(members, "exportDate") == Lookup(members[..2], "exportDate");
    JObject(members)
  }

  /** `btoa(unescape(encodeURIComponent(text)))`: a token of Base64 characters and trailing padding only. */
  function EncodeToken(text: string): (token: string)
    ensures forall i :: 0 <= i < |token| ==> Base64.IsAlphabetChar(token[i]) || token[i] == '='
    ensures text != [] <==> token != []
  {
    var bytes := Utf8.Encode(text);
    EncodedNonEmpty(text);
    Base64.Encode(bytes)
  }

  lemma EncodedNonEmpty(text: string)
    ensures text != [] <==> Utf8.Encode(text) != []
  {
  }

  /**
   * The decoding half of `processImport`: blank input is refused before any
   * decoding; otherwise the trimmed text goes through `atob` and then
   * `decodeURIComponent(escape(...))`.
   */
  function DecodeToken(input: string): (r: Result<string, ImportError>)
    ensures r == Failure(EmptyInput) <==> Trim(input) == []
    ensures Trim(input) != [] && Base64.ForgivingDecode(Trim(input)).None? ==> r == Failure(MalformedToken)
    ensures Trim(input) != [] && Base64.ForgivingDecode(Trim(input)).Some? ==>
      (Utf8.Decode(Base64.ForgivingDecode(Trim(input)).value).None? <==> r == Failure(MalformedText))
    ensures r.Success? ==>
      (&& Base64.ForgivingDecode(Trim(input)).Some?
       && Utf8.Encode(r.value) == Base64.ForgivingDecode(Trim(input)).value)
    ensures r.Failure? ==>
      (|| Trim(input) == []
       || Base64.ForgivingDecode(Trim(input)).None?
       || Utf8.Decode(Base64.ForgivingDecode(Trim(input)).value).None?)
  {
    if Trim(input) == [] then Failure(EmptyInput)
    else match Base64.ForgivingDecode(Trim(input))
      case None => Failure(MalformedToken)
      case Some(bytes) =>
        match Utf8.Decode(bytes)
        case None => Failure(MalformedText)
        case Some(text) =>
          Utf8.EncodeDecode(bytes);
          Success(text)
  }

  /** The filter on each task: truthy `id` and `name`, numeric `total` and `current`. */
  predicate IsValidTask(v: Json)
    requires !v.JNull?
  {
    && Truthy(Property(v, "id")) && Truthy(Property(v, "name"))
    && IsNumber(Property(v, "total")) && IsNumber(Property(v, "current"))
  }

  /** `tasks.filter(isValid)` over an array without nulls. */
  function KeepValid(items: seq<Json>): (r: seq<Json>)
    requires JNull !in items
    ensures |r| <= |items|
    ensures forall v :: v in r <==> v in items && IsValidTask(v)
  {
    if items == [] then []
    else
      assert forall v :: v in items[1..] ==> v in items;
      if IsValidTask(items[0]) then [items[0]] + KeepValid(items[1..]) else KeepValid(items[1..])
  }

  /** The filter keeps the survivors' relative order: it distributes over concatenation. */
  lemma {:induction false} KeepValidAppend(a: seq<Json>, b: seq<Json>)
    requires JNull !in a && JNull !in b
    ensures JNull !in a + b
    ensures KeepValid(a + b) == KeepValid(a) + KeepValid(b)
  {
    if a != [] {
      assert (a + b)[1..] == a[1..] + b;
      assert JNull !in a[1..];
      KeepValidAppend(a[1..], b);
    } else {
      assert a + b == b;
    }
  }

  /** With a valid first task, the filter keeps it and goes on with the rest. */
  lemma KeepValidCons(items: seq<Json>)
    requires items != [] && JNull !in items && IsValidTask(items[0])
    ensures JNull !in items[1..]
    ensures KeepValid(items) == [items[0]] + KeepValid(items[1..])
  {
    assert forall v :: v in items[1..] ==> v in items;
  }

  /** A list of tasks that all pass the filter passes through it unchanged. */
  lemma {:induction false} KeepAllValid(items: seq<Json>)
    requires JNull !in items
    requires forall i :: 0 <= i < |items| ==> IsValidTask(items[i])
    ensures KeepValid(items) == items
  {
    if items != [] {
      KeepValidCons(items);
      KeepAllValid(items[1..]);
      assert [items[0]] + items[1..] == items;
    }
  }

  /**
   * The validation half of `processImport`. Reading `tasks` of null or a
   * null task throws; a missing or non-array `tasks` is refused; the valid
   * tasks are kept in order; an empty result is refused.
   */
  function ReadTasks(payload: Json): (r: Result<seq<Json>, ImportError>)
    ensures r.Success? <==>
      && payload.JObject?
      && Lookup(payload.members, "tasks").Some? && Lookup(payload.members, "tasks").value.JArray?
      && JNull !in Lookup(payload.members, "tasks").value.items
      && KeepValid(Lookup(payload.members, "tasks").value.items) != []
    ensures r.Success? ==> r.value == KeepValid(Lookup(payload.members, "tasks").value.items)
    ensures r.Success? ==> r.value != [] && forall v :: v in r.value ==> !v.JNull? && IsValidTask(v)
    ensures r.Failure? ==> r.error == InvalidShape || r.error == NoValidTasks
  {
    if payload.JNull? then Failure(InvalidShape)
    else
      var tasks := Property(payload, "tasks");
      if !Truthy(tasks) || !tasks.value.JArray? then Failure(InvalidShape)
      else if JNull in tasks.value.items then Failure(InvalidShape)
      else
        var valid := KeepValid(tasks.value.items);
        if |valid| == 0 then Failure(NoValidTasks) else Success(valid)
  }

  /** The whole import up to the confirmation: decode, parse, validate. */
  function ImportTasks(input: string, parse: string -> Option<Json>): (r: Result<seq<Json>, ImportError>)
    ensures DecodeToken(input).Failure? ==> r == Failure(DecodeToken(input).error)
    ensures DecodeToken(input).Success? && parse(DecodeToken(input).value).None? ==> r == Failure(MalformedJson)
    ensures DecodeToken(input).Success? && parse(DecodeToken(input).value).Some? ==>
      r == ReadTasks(parse(DecodeToken(input).value).value)
    ensures r == Failure(EmptyInput) <==> Trim(input) == []
    ensures r.Success? ==>
      (&& DecodeToken(input).Success? && parse(DecodeToken(input).value).Some?
       && r == ReadTasks(parse(DecodeToken(input).value).value))
  {
    match DecodeToken(input)
    case Failure(e) => Failure(e)
    case Success(text) =>
      match parse(text)
      case None => Failure(MalformedJson)
      case Some(payload) => ReadTasks(payload)
  }

  /** Every non-empty JSON text survives the token round trip; the empty text makes the empty token, refused as blank. */
  lemma TokenRoundTrip(text: string)
    ensures text != [] ==> DecodeToken(EncodeToken(text)) == Success(text)
    ensures text == [] ==> DecodeToken(EncodeToken(text)) == Failure(EmptyInput)
  {
    var token := EncodeToken(text);
    if token != [] {
      TrimKeepsUnpadded(token);
    }
    Base64.DecodeEncode(Utf8.Encode(text));
    Utf8.DecodeEncode(text);
  }

  /**
   * Importing an exported token yields what validation makes of the stored
   * tasks, provided `JSON.parse` reads back what `JSON.stringify` printed.
   */
  lemma ExportThenImport(stored: Option<Json>, exportDate: string,
                         stringify: Json -> string, parse: string -> Option<Json>)
    requires stringify(ExportBundle(stored, exportDate)) != []
    requires parse(stringify(ExportBundle(stored, exportDate))) == Some(ExportBundle(stored, exportDate))
    ensures ImportTasks(EncodeToken(stringify(ExportBundle(stored, exportDate))), parse)
      == ReadTasks(ExportBundle(stored, exportDate))
  {
    TokenRoundTrip(stringify(ExportBundle(stored, exportDate)));
  }

  /**
   * A store written by a confirmed import (a non-empty list of valid tasks)
   * exports to a token that imports back to exactly that list.
   */
  lemma ReimportIsIdentity(valid: seq<Json>, exportDate: string,
                           stringify: Json -> string, parse: string -> Option<Json>)
    requires valid != [] && JNull !in valid && forall v :: v in valid ==> IsValidTask(v)
    requires stringify(ExportBundle(Some(JArray(valid)), exportDate)) != []
    requires parse(stringify(ExportBundle(Some(JArray(valid)), exportDate)))
      == Some(ExportBundle(Some(JArray(valid)), exportDate))
    ensures ImportTasks(EncodeToken(stringify(ExportBundle(Some(JArray(valid)), exportDate))), parse)
      == Success(valid)
  {
    ExportThenImport(Some(JArray(valid)), exportDate, stringify, parse);
    ReadExportedTasks(valid, exportDate);
  }

  /** Validation of a bundle that carries only valid tasks gives those tasks back. */
  lemma ReadExportedTasks(valid: seq<Json>, exportDate: string)
    requires valid != [] && JNull !in valid && forall v :: v in valid ==> IsValidTask(v)
    ensures ReadTasks(ExportBundle(Some(JArray(valid)), exportDate)) == Success(valid)
  {
    assert forall i :: 0 <= i < |valid| ==> valid[i] in valid;
    KeepAllValid(valid);
  }

  /** An export with nothing stored holds an empty task list, which import refuses. */
  lemma EmptyExportIsRefused(exportDate: string)
    ensures ReadTasks(ExportBundle(None, exportDate)) == Failure(NoValidTasks)
  {
  }

  /** The settings page state: the stored tasks, the import text box and the message line. */
  class Settings {
    /** What the browser store holds under the tasks key; `None` while nothing has been stored. */
    var storedTasks: Option<Json>
    var importText: string
    var importMessage: Message

    constructor (stored: Option<Json>)
      ensures storedTasks == stored && importText == [] && importMessage == NoMessage
    {
      storedTasks, importText, importMessage := stored, [], NoMessage;
    }

    /** The import box's change handler. */
    method SetImportText(text: string)
      modifies this
      ensures importText == text
      ensures storedTasks == old(storedTasks) && importMessage == old(importMessage)
    {
      importText := text;
    }

    /**
     * `exportTasks`: the token handed to the clipboard, and the message that
     * says whether the clipboard took it. The stored tasks are not touched.
     */
    method ExportTasks(stringify: Json -> string, exportDate: string, clipboardAccepts: bool) returns (token: string)
      modifies this
      ensures token == EncodeToken(stringify(ExportBundle(storedTasks, exportDate)))
      ensures importMessage == if clipboardAccepts then CopiedToClipboard else CopyFailed
      ensures storedTasks == old(storedTasks) && importText == old(importText)
    {
      var exportData := ExportBundle(storedTasks, exportDate);
      var jsonString := stringify(exportData);
      token := EncodeToken(jsonString);
      if clipboardAccepts {
        importMessage := CopiedToClipboard;
      } else {
        importMessage := CopyFailed;
      }
    }

    /**
     * `processImport`: blank text only asks for data; any failure shows the
     * failure message and leaves the store alone; a valid import replaces the
     * stored tasks wholesale with the valid ones (never a merge) when the user
     * confirms, and changes nothing when the user declines.
     */
    method ProcessImport(parse: string -> Option<Json>, confirmed: bool)
      modifies this
      ensures var r := ImportTasks(old(importText), parse);
        && storedTasks == (if r.Success? && confirmed then Some(JArray(r.value)) else old(storedTasks))
        && importMessage == MessageAfterImport(r, confirmed, old(importMessage))
        && importText == (if r.Success? && confirmed then [] else old(importText))
    {
      var result := ImportTasks(importText, parse);
      if Trim(importText) == [] {
        assert result == Failure(EmptyInput);
        importMessage := EnterData;
        return;
      }
      assert result != Failure(EmptyInput);
      if result.Failure? {
        importMessage := ImportFailed;
      } else if confirmed {
        var validTasks := result.value;
        storedTasks := Some(JArray(validTasks));
        importMessage := Imported(|validTasks|);
        importText := [];
      }
    }
  }

  /** The message line after an import attempt: asked for data, failed, or the number of tasks imported. */
  function MessageAfterImport(r: Result<seq<Json>, ImportError>, confirmed: bool, previous: Message): (m: Message)
    ensures r == Failure(EmptyInput) ==> m == EnterData
    ensures r.Failure? && r.error != EmptyInput ==> m == ImportFailed
    ensures r.Success? && confirmed ==> m == Imported(|r.value|)
    ensures r.Success? && !confirmed ==> m == previous
  {
    match r
    case Failure(EmptyInput) => EnterData
    case Failure(_) => ImportFailed
    case Success(valid) => if confirmed then Imported(|valid|) else previous
  }
}
