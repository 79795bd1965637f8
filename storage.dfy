/**
 * Persistence of the task list, at the level of JSON values (RFC 8259):
 * the text encoding and the file system are outside the model, and a file
 * is either absent (None) or holds one parsed JSON value.
 */
module Storage {
  import opened Results
  import opened Builtins
  import opened Core

  /** A parsed JSON value; numbers are integers, objects map member names to values. */
  datatype Json =
    | JNull
    | JBool(b: bool)
    | JInt(n: int)
    | JString(s: string)
    | JArray(items: seq<Json>)
    | JObject(members: map<string, Json>)

  /** Why loading fails, with the Python exception each case raises. */
  datatype LoadError =
    | NotAList                                 // ValueError: the document is not a JSON list
    | NotSubscriptable                         // TypeError: an entry is not a JSON object
    | MissingKey(key: string)                  // KeyError: a required member is absent
    | IdTypeError                              // TypeError: int() of null, a list or an object
    | IdValueError(text: string)               // ValueError: int() of a string that is no integer
    | InvalidLabel(key: string, given: string) // ValueError: Importance(...) or Urgency(...) of an unknown value

  // ---------------------------------------------------------------------------
  // The Python coercions `task_from_json` applies to member values

  /**
   * `int(v)`: integers as they are, booleans as 0 and 1, strings parsed in
   * base 10. A string that is no integer is a ValueError; null, a list or an
   * object is a TypeError.
   */
  function PyInt(v: Json): (r: Result<int, LoadError>)
    ensures r.Ok? <==> v.JInt? || v.JBool? || (v.JString? && ParseInt(v.s).Some?)
    ensures r.Err? ==> r.error == (if v.JString? then IdValueError(v.s) else IdTypeError)
    ensures forall n :: v == JString(IntToDecimal(n)) ==> r == Ok(n)
  {
    ParseIntDecimals();
    match v
    case JInt(n) => Ok(n)
    case JBool(b) => Ok(if b then 1 else 0)
    case JString(s) => if ParseInt(s).Some? then Ok(ParseInt(s).value) else Err(IdValueError(s))
    case _ => Err(IdTypeError)
  }

  /**
   * Python's repr of a list starts with '[' and that of a dict with '{'; this
   * is all the model assumes of `containerRepr` where it matters.
   */
  ghost predicate ReprLike(containerRepr: Json -> string) {
    forall v: Json :: (v.JArray? || v.JObject?) ==>
      |containerRepr(v)| > 0 && containerRepr(v)[0] == (if v.JArray? then '[' else '{')
  }

  /**
   * `str(v)`: strings as they are, integers in decimal, `True`/`False`, `None`;
   * a list or an object is printed by Python's repr, given here as `containerRepr`.
   * Only a JSON string can have the string form "low" or "high".
   */
  function PyStr(v: Json, containerRepr: Json -> string): (r: string)
    ensures v.JString? ==> r == v.s
    ensures ReprLike(containerRepr) ==>
      ((r == "low" || r == "high") <==> (v == JString("low") || v == JString("high")))
  {
    match v
    case JString(s) => s
    case JInt(n) => IntToDecimal(n)
    case JBool(b) => if b then "True" else "False"
    case JNull => "None"
    case _ => containerRepr(v)
  }

  /** `bool(v)`: Python truthiness; the false values are None, False, 0, "", [] and {}. */
  predicate Truthy(v: Json)
    ensures Truthy(v) <==>
      v != JNull && v != JBool(false) && v != JInt(0) && v != JString("") && v != JArray([]) && v != JObject(map[])
  {
    match v
    case JNull => false
    case JBool(b) => b
    case JInt(n) => n != 0
    case JString(s) => |s| > 0
    case JArray(items) => |items| > 0
    case JObject(members) => |members| > 0
  }

  // ---------------------------------------------------------------------------
  // One task

  /** `task_to_json`: an object with the five fields, enumerations as their labels. */
  function TaskToJson(t: Task): (j: Json)
    ensures j.JObject? && j.members.Keys == {"id", "title", "importance", "urgency", "done"}
    ensures j.members["id"] == JInt(t.id) && j.members["title"] == JString(t.title)
    ensures j.members["importance"] == JString(ImportanceLabel(t.importance))
    ensures j.members["urgency"] == JString(UrgencyLabel(t.urgency))
    ensures j.members["done"] == JBool(t.done)
  {
    JObject(map[
      "id" := JInt(t.id),
      "title" := JString(t.title),
      "importance" := JString(ImportanceLabel(t.importance)),
      "urgency" := JString(UrgencyLabel(t.urgency)),
      "done" := JBool(t.done)])
  }

  /**
   * `task_from_json`: the fields are read in the order id, title, importance,
   * urgency, done; the first failure is the error. `done` is optional.
   */
  function TaskFromJson(d: Json, containerRepr: Json -> string): Result<Task, LoadError> {
    if !d.JObject? then Err(NotSubscriptable)
    else
      var m := d.members;
      if "id" !in m then Err(MissingKey("id"))
      else
        var id :- PyInt(m["id"]);
        if "title" !in m then Err(MissingKey("title"))
        else
          var title := PyStr(m["title"], containerRepr);
          if "importance" !in m then Err(MissingKey("importance"))
          else
            var impLabel := PyStr(m["importance"], containerRepr);
            if ImportanceOf(impLabel).None? then Err(InvalidLabel("importance", impLabel))
            else if "urgency" !in m then Err(MissingKey("urgency"))
            else
              var urgLabel := PyStr(m["urgency"], containerRepr);
              if UrgencyOf(urgLabel).None? then Err(InvalidLabel("urgency", urgLabel))
              else
                var done := if "done" in m then Truthy(m["done"]) else false;
                Ok(Task(id, title, ImportanceOf(impLabel).value, UrgencyOf(urgLabel).value, done))
  }

  /** Decoding inverts encoding, field for field. */
  lemma TaskRoundTrip(t: Task, containerRepr: Json -> string)
    ensures TaskFromJson(TaskToJson(t), containerRepr) == Ok(t)
  {
    LabelsRoundTrip(t.importance, t.urgency, "");
  }

  /**
   * An entry decodes exactly when it is an object with the four required
   * members, an id that `int()` accepts and importance and urgency whose
   * string form is exactly "low" or "high"; the task then carries those values.
   */
  lemma TaskFromJsonAccepts(d: Json, containerRepr: Json -> string)
    ensures TaskFromJson(d, containerRepr).Ok? <==>
      && d.JObject?
      && "id" in d.members && "title" in d.members
      && "importance" in d.members && "urgency" in d.members
      && PyInt(d.members["id"]).Ok?
      && PyStr(d.members["importance"], containerRepr) in {"low", "high"}
      && PyStr(d.members["urgency"], containerRepr) in {"low", "high"}
    ensures TaskFromJson(d, containerRepr).Ok? ==>
      var t := TaskFromJson(d, containerRepr).value;
      && t.id == PyInt(d.members["id"]).value
      && t.title == PyStr(d.members["title"], containerRepr)
      && ImportanceLabel(t.importance) == PyStr(d.members["importance"], containerRepr)
      && UrgencyLabel(t.urgency) == PyStr(d.members["urgency"], containerRepr)
      && t.done == ("done" in d.members && Truthy(d.members["done"]))
  {
    if d.JObject? && "importance" in d.members && "urgency" in d.members {
      LabelsRoundTrip(Importance.Low, Urgency.Low, PyStr(d.members["importance"], containerRepr));
      LabelsRoundTrip(Importance.Low, Urgency.Low, PyStr(d.members["urgency"], containerRepr));
    }
  }

  /**
   * With Python's repr for lists and objects, the labels are accepted only as
   * the JSON strings "low" and "high": a number, a boolean, null, a list or an
   * object is rejected, whatever its string form.
   */
  lemma TaskFromJsonLabelsAreStrings(d: Json, containerRepr: Json -> string)
    requires ReprLike(containerRepr)
    ensures TaskFromJson(d, containerRepr).Ok? <==>
      && d.JObject?
      && "id" in d.members && "title" in d.members
      && "importance" in d.members && "urgency" in d.members
      && PyInt(d.members["id"]).Ok?
      && d.members["importance"] in {JString("low"), JString("high")}
      && d.members["urgency"] in {JString("low"), JString("high")}
  {
    TaskFromJsonAccepts(d, containerRepr);
  }

  /** An importance given as a JSON list is a ValueError naming the list's repr. */
  lemma ListImportanceFails(containerRepr: Json -> string)
    requires ReprLike(containerRepr)
    ensures TaskFromJson(JObject(map["id" := JInt(1), "title" := JString("x"),
                                     "importance" := JArray([]), "urgency" := JString("low")]), containerRepr)
            == Err(InvalidLabel("importance", containerRepr(JArray([]))))
  {
    var given := containerRepr(JArray([]));
    assert given[0] == '[';
    assert given != "low" && given != "high";
  }

  /** A missing `done` member reads as an open task. */
  lemma MissingDoneMeansOpen(d: Json, containerRepr: Json -> string)
    requires d.JObject? && "done" !in d.members
    requires TaskFromJson(d, containerRepr).Ok?
    ensures !TaskFromJson(d, containerRepr).value.done
  {
  }

  /** A missing `id` or `title` member is a KeyError. */
  lemma MissingIdOrTitleFails(d: Json, containerRepr: Json -> string)
    requires d.JObject?
    ensures "id" !in d.members ==> TaskFromJson(d, containerRepr) == Err(MissingKey("id"))
    ensures "id" in d.members && PyInt(d.members["id"]).Ok? && "title" !in d.members ==>
      TaskFromJson(d, containerRepr) == Err(MissingKey("title"))
  {
  }

  /**
   * An importance label other than "low" and "high" is rejected, even one
   * that differs only in case ("HIGH") or extends a label ("superhigh").
   */
  lemma UnknownImportanceFails(id: int, title: string, text: string, urgency: Json, containerRepr: Json -> string)
    requires text != "low" && text != "high"
    ensures TaskFromJson(JObject(map["id" := JInt(id), "title" := JString(title),
                                     "importance" := JString(text), "urgency" := urgency]), containerRepr)
            == Err(InvalidLabel("importance", text))
  {
    LabelsRoundTrip(Importance.Low, Urgency.Low, text);
  }

  /** The entry of the failing-load scenario: importance "superhigh" raises ValueError. */
  lemma SuperhighFails(containerRepr: Json -> string)
    ensures TaskFromJson(JObject(map["id" := JInt(1), "title" := JString("x"),
                                     "importance" := JString("superhigh"), "urgency" := JString("low"),
                                     "done" := JBool(false)]), containerRepr)
            == Err(InvalidLabel("importance", "superhigh"))
  {
    LabelsRoundTrip(Importance.Low, Urgency.Low, "superhigh");
  }

  // ---------------------------------------------------------------------------
  // The whole list

  /** `[task_from_json(item) for item in raw]`: all entries decoded in order, or the first error. */
  function DecodeAll(items: seq<Json>, containerRepr: Json -> string): (r: Result<seq<Task>, LoadError>)
    ensures r.Ok? <==> forall i :: 0 <= i < |items| ==> TaskFromJson(items[i], containerRepr).Ok?
    ensures r.Ok? ==>
      && |r.value| == |items|
      && forall i :: 0 <= i < |items| ==> TaskFromJson(items[i], containerRepr) == Ok(r.value[i])
    ensures r.Err? ==>
      exists i :: && 0 <= i < |items|
                  && TaskFromJson(items[i], containerRepr) == Err(r.error)
                  && forall j :: 0 <= j < i ==> TaskFromJson(items[j], containerRepr).Ok?
    decreases |items|
  {
    if items == [] then Ok([])
    else
      match TaskFromJson(items[0], containerRepr)
      case Err(e) =>
        assert TaskFromJson(items[0], containerRepr) == Err(e);
        Err(e)
      case Ok(t) =>
        var rest := DecodeAll(items[1..], containerRepr);
        if rest.Err? then
          ghost var i :| && 0 <= i < |items[1..]|
                         && TaskFromJson(items[1..][i], containerRepr) == Err(rest.error)
                         && forall j :: 0 <= j < i ==> TaskFromJson(items[1..][j], containerRepr).Ok?;
          assert items[i + 1] == items[1..][i];
          assert forall j :: 1 <= j < i + 1 ==> items[j] == items[1..][j - 1];
          Err(rest.error)
        else
          assert forall i :: 1 <= i < |items| ==> items[i] == items[1..][i - 1];
          Ok([t] + rest.value)
  }

  /** `load_tasks`: no file is an empty list; a document that is not a list is an error. */
  function LoadTasks(file: Option<Json>, containerRepr: Json -> string): Result<seq<Task>, LoadError> {
    match file
    case None => Ok([])
    case Some(JArray(items)) => DecodeAll(items, containerRepr)
    case Some(_) => Err(NotAList)
  }

  /** The payload `save_tasks` writes: the list of encoded tasks, in order. */
  function SaveTasks(ts: seq<Task>): (j: Json)
    ensures j.JArray? && |j.items| == |ts|
    ensures forall i :: 0 <= i < |ts| ==> j.items[i] == TaskToJson(ts[i])
  {
    JArray(seq(|ts|, i requires 0 <= i < |ts| => TaskToJson(ts[i])))
  }

  /** Loading what was saved gives back the same list, element by element, in order. */
  lemma LoadAfterSave(ts: seq<Task>, containerRepr: Json -> string)
    ensures LoadTasks(Some(SaveTasks(ts)), containerRepr) == Ok(ts)
  {
    var items := SaveTasks(ts).items;
    forall i | 0 <= i < |ts| ensures TaskFromJson(items[i], containerRepr) == Ok(ts[i]) {
      TaskRoundTrip(ts[i], containerRepr);
    }
    var r := DecodeAll(items, containerRepr);
    assert r.Ok?;
    assert r.value == ts;
  }

  /** A missing file is the empty list, not an error. */
  lemma LoadMissingFile(containerRepr: Json -> string)
    ensures LoadTasks(None, containerRepr) == Ok([])
  {
  }

  /** A document whose top level is not a list is rejected, whatever it holds. */
  lemma LoadRejectsNonList(j: Json, containerRepr: Json -> string)
    requires !j.JArray?
    ensures LoadTasks(Some(j), containerRepr) == Err(NotAList)
  {
  }

  /** Loading fails exactly when some entry fails to decode, and then with the first entry's error. */
  lemma LoadListFailsOnBadEntry(items: seq<Json>, containerRepr: Json -> string, i: int)
    requires 0 <= i < |items| && TaskFromJson(items[i], containerRepr).Err?
    requires forall j :: 0 <= j < i ==> TaskFromJson(items[j], containerRepr).Ok?
    ensures LoadTasks(Some(JArray(items)), containerRepr) == Err(TaskFromJson(items[i], containerRepr).error)
  {
    var r := DecodeAll(items, containerRepr);
    var k :| 0 <= k < |items| && TaskFromJson(items[k], containerRepr) == Err(r.error) &&
      forall j :: 0 <= j < k ==> TaskFromJson(items[j], containerRepr).Ok?;
    assert k == i;
  }
}
