/** The task records and the four user intents (add, toggle, delete, edit) as
    transitions on the ordered task list, with what each one promises. */
module Tasks {
  import opened Wrappers
  import opened Text

  /** One to-do item, as kept in memory and in the storage slot. */
  datatype Task = Task(id: string, text: string, completed: bool)

  predicate HasId(ts: seq<Task>, id: string) {
    exists k | 0 <= k < |ts| :: ts[k].id == id
  }

  predicate DistinctIds(ts: seq<Task>) {
    forall i, j | 0 <= i < j < |ts| :: ts[i].id != ts[j].id
  }

  /** The add path's rejection test: the input is empty, or empty once trimmed. */
  predicate IsBlank(s: string) {
    s == [] || Trim(s) == []
  }

  lemma BlankIffAllSpace(s: string)
    ensures IsBlank(s) <==> AllSpace(s)
  {
    TrimEmptyIffAllSpace(s);
  }

  /** A new record: the caller's fresh id, the trimmed text, not completed. */
  function CreateTask(id: string, text: string): (t: Task)
    ensures t.id == id && !t.completed
    ensures Trimmed(t.text) && exists k :: PaddedAt(text, t.text, k)
    ensures t.text == [] <==> AllSpace(text)
  {
    TrimEmptyIffAllSpace(text);
    Task(id, Trim(text), false)
  }

  /** `findIndex` on the id: the first position holding that id, or -1. */
  function FirstIndex(ts: seq<Task>, id: string): (r: int)
    ensures -1 <= r < |ts|
    ensures r == -1 <==> !HasId(ts, id)
    ensures r >= 0 ==> ts[r].id == id && forall k | 0 <= k < r :: ts[k].id != id
  {
    if ts == [] then -1
    else if ts[0].id == id then 0
    else
      var j := FirstIndex(ts[1..], id);
      assert forall k | 1 <= k < |ts| :: ts[k] == ts[1..][k - 1];
      if j == -1 then -1 else j + 1
  }

  /** The search loop behind `findIndex`. */
  method FindIndex(ts: seq<Task>, id: string) returns (index: int)
    ensures index == FirstIndex(ts, id)
    ensures index == -1 || (0 <= index < |ts| && ts[index].id == id)
  {
    index := 0;
    while index < |ts|
      invariant 0 <= index <= |ts|
      invariant forall k | 0 <= k < index :: ts[k].id != id
    {
      if ts[index].id == id {
        return;
      }
      index := index + 1;
    }
    index := -1;
  }

  // ---------------------------------------------------------------------------
  // Add

  /** The list after submitting `input`: unchanged when blank, otherwise a new
      record prepended (`unshift`). */
  function Added(ts: seq<Task>, input: string, freshId: string): seq<Task> {
    if IsBlank(input) then ts else [CreateTask(freshId, input)] + ts
  }

  /** Submitting leaves the list as it was exactly when the input is whitespace only. */
  lemma AddBlankIsNoOp(ts: seq<Task>, input: string, freshId: string)
    ensures Added(ts, input, freshId) == ts <==> AllSpace(input)
  {
    BlankIffAllSpace(input);
    if !AllSpace(input) {
      assert |Added(ts, input, freshId)| == |ts| + 1;
    }
  }

  /** A non-blank submission puts one new, uncompleted, trimmed record in front
      of the old list, which follows unchanged. */
  lemma AddPrepends(ts: seq<Task>, input: string, freshId: string)
    requires !AllSpace(input)
    ensures var r := Added(ts, input, freshId);
      && |r| == |ts| + 1
      && r[0] == Task(freshId, Trim(input), false)
      && r[0].text != [] && Trimmed(r[0].text)
      && r[1..] == ts
  {
    BlankIffAllSpace(input);
    TrimEmptyIffAllSpace(input);
  }

  /** Whitespace around the input is not stored: input made of a trimmed,
      non-empty text between whitespace-only padding adds exactly that text. */
  lemma AddStoresTrimmedText(ts: seq<Task>, pre: string, mid: string, post: string, freshId: string)
    requires AllSpace(pre) && AllSpace(post) && Trimmed(mid) && mid != []
    ensures Added(ts, pre + mid + post, freshId) == [Task(freshId, mid, false)] + ts
  {
    TrimUnique(pre, mid, post);
    assert !IsBlank(pre + mid + post);
  }

  lemma AddTrimmedText(ts: seq<Task>, text: string, freshId: string)
    requires Trimmed(text) && text != []
    ensures Added(ts, text, freshId) == [Task(freshId, text, false)] + ts
  {
    assert [] + text + [] == text;
    AddStoresTrimmedText(ts, [], text, [], freshId);
  }

  // ---------------------------------------------------------------------------
  // Toggle

  /** The list after toggling `id`: the first record with that id has its flag
      negated; nothing happens when the id is absent. */
  function Toggled(ts: seq<Task>, id: string): seq<Task> {
    var i := FirstIndex(ts, id);
    if i == -1 then ts else ts[i := ts[i].(completed := !ts[i].completed)]
  }

  /** Toggling changes only the flag of the first matching record. */
  lemma ToggleFrame(ts: seq<Task>, id: string)
    ensures var r := Toggled(ts, id);
      && |r| == |ts|
      && (!HasId(ts, id) ==> r == ts)
      && forall k | 0 <= k < |ts| ::
           && r[k].id == ts[k].id
           && r[k].text == ts[k].text
           && (r[k].completed != ts[k].completed <==>
                 ts[k].id == id && forall j | 0 <= j < k :: ts[j].id != id)
  {
  }

  /** Two lists with the same ids in the same places agree on `findIndex`. */
  lemma {:induction false} FirstIndexFollowsIds(a: seq<Task>, b: seq<Task>, id: string)
    requires |a| == |b|
    requires forall k | 0 <= k < |a| :: a[k].id == b[k].id
    ensures FirstIndex(a, id) == FirstIndex(b, id)
  {
    if a != [] && a[0].id != id {
      FirstIndexFollowsIds(a[1..], b[1..], id);
    }
  }

  /** Toggling the same id twice gives back the original list. */
  lemma ToggleTwice(ts: seq<Task>, id: string)
    ensures Toggled(Toggled(ts, id), id) == ts
  {
    var once := Toggled(ts, id);
    FirstIndexFollowsIds(ts, once, id);
  }

  // ---------------------------------------------------------------------------
  // Delete

  /** The list after deleting `id`: `filter` keeping every record whose id differs. */
  function Deleted(ts: seq<Task>, id: string): (r: seq<Task>)
    ensures |r| <= |ts|
    ensures !HasId(r, id)
    ensures !HasId(ts, id) ==> r == ts
  {
    if ts == [] then []
    else
      var rest := Deleted(ts[1..], id);
      assert forall k | 1 <= k < |ts| :: ts[k] == ts[1..][k - 1];
      assert ts == [ts[0]] + ts[1..];
      (if ts[0].id == id then [] else [ts[0]]) + rest
  }

  /** `a` is `b` with some elements left out, the rest in their original order. */
  predicate IsSubsequence(a: seq<Task>, b: seq<Task>)
    decreases |b|
  {
    if a == [] then true
    else if b == [] then false
    else (a[0] == b[0] && IsSubsequence(a[1..], b[1..])) || IsSubsequence(a, b[1..])
  }

  /** Delete is a filter: what remains is a subsequence of the list that holds
      every record with another id as often as the list did, and none with this id. */
  lemma {:induction false} DeleteIsFilter(ts: seq<Task>, id: string)
    ensures IsSubsequence(Deleted(ts, id), ts)
    ensures forall t :: multiset(Deleted(ts, id))[t] == if t.id == id then 0 else multiset(ts)[t]
  {
    if ts != [] {
      DeleteIsFilter(ts[1..], id);
      var rest := Deleted(ts[1..], id);
      assert ts == [ts[0]] + ts[1..];
      if ts[0].id == id {
        assert Deleted(ts, id) == rest;
        SubsequenceOfTail(rest, ts);
      } else {
        assert Deleted(ts, id) == [ts[0]] + rest;
        assert ([ts[0]] + rest)[1..] == rest;
      }
    }
  }

  /** A record survives delete exactly when it was in the list with another id. */
  lemma {:induction false} DeletedMembers(ts: seq<Task>, id: string, t: Task)
    ensures t in Deleted(ts, id) <==> t in ts && t.id != id
  {
    if ts != [] {
      DeletedMembers(ts[1..], id, t);
      assert ts == [ts[0]] + ts[1..];
    }
  }

  lemma SubsequenceOfTail(a: seq<Task>, b: seq<Task>)
    requires b != [] && IsSubsequence(a, b[1..])
    ensures IsSubsequence(a, b)
  {
  }

  lemma {:induction false} DeletedAppend(a: seq<Task>, b: seq<Task>, id: string)
    ensures Deleted(a + b, id) == Deleted(a, id) + Deleted(b, id)
  {
    if a == [] {
      assert a + b == b;
    } else {
      var ab := a + b;
      assert ab[0] == a[0] && ab[1..] == a[1..] + b;
      DeletedAppend(a[1..], b, id);
      calc {
        Deleted(ab, id);
        (if a[0].id == id then [] else [a[0]]) + Deleted(a[1..] + b, id);
        (if a[0].id == id then [] else [a[0]]) + (Deleted(a[1..], id) + Deleted(b, id));
        Deleted(a, id) + Deleted(b, id);
      }
    }
  }

  /** With distinct ids, deleting a present id removes exactly that one record. */
  lemma DeleteRemovesOne(ts: seq<Task>, id: string)
    requires DistinctIds(ts) && HasId(ts, id)
    ensures var i := FirstIndex(ts, id);
      Deleted(ts, id) == ts[..i] + ts[i + 1..] && |Deleted(ts, id)| == |ts| - 1
  {
    var i := FirstIndex(ts, id);
    NoMatchAfter(ts, i);
    DeleteSingleMatch(ts, i, id);
  }

  /** Deleting an id held only at position i removes position i. */
  lemma DeleteSingleMatch(ts: seq<Task>, i: int, id: string)
    requires 0 <= i < |ts| && ts[i].id == id
    requires !HasId(ts[..i], id) && !HasId(ts[i + 1..], id)
    ensures Deleted(ts, id) == ts[..i] + ts[i + 1..]
  {
    var before, after := ts[..i], ts[i + 1..];
    assert Deleted([ts[i]], id) == [];
    calc {
      Deleted(ts, id);
      { assert ts == before + ([ts[i]] + after); }
      Deleted(before + ([ts[i]] + after), id);
      { DeletedAppend(before, [ts[i]] + after, id); }
      Deleted(before, id) + Deleted([ts[i]] + after, id);
      { DeletedAppend([ts[i]], after, id); }
      Deleted(before, id) + (Deleted([ts[i]], id) + Deleted(after, id));
      before + after;
    }
  }

  /** With distinct ids, no record after position i shares its id. */
  lemma NoMatchAfter(ts: seq<Task>, i: int)
    requires DistinctIds(ts) && 0 <= i < |ts|
    ensures !HasId(ts[i + 1..], ts[i].id)
  {
    var after := ts[i + 1..];
    forall k | 0 <= k < |after| ensures after[k].id != ts[i].id {
      assert after[k] == ts[i + 1 + k];
    }
  }

  // ---------------------------------------------------------------------------
  // Edit

  /** The list after editing `id`, given the prompt's reply (None when cancelled)
      and the answer to "delete it?" (consulted only for a blank reply). */
  function Edited(ts: seq<Task>, id: string, reply: Option<string>, confirmDelete: bool): seq<Task> {
    var i := FirstIndex(ts, id);
    if i == -1 then ts
    else
      match reply
      case None => ts
      case Some(newText) =>
        if Trim(newText) == [] then
          (if confirmDelete then Deleted(ts, id) else ts)
        else
          ts[i := ts[i].(text := Trim(newText))]
  }

  /** Edit leaves the list alone for an absent id, a cancelled prompt, or a blank
      reply whose deletion is declined. */
  lemma EditNoChange(ts: seq<Task>, id: string, reply: Option<string>, confirmDelete: bool)
    requires || !HasId(ts, id)
             || reply.None?
             || (AllSpace(reply.value) && !confirmDelete)
    ensures Edited(ts, id, reply, confirmDelete) == ts
  {
    if reply.Some? {
      TrimEmptyIffAllSpace(reply.value);
    }
  }

  /** A blank reply whose deletion is confirmed does what delete does. */
  lemma EditBlankConfirmedDeletes(ts: seq<Task>, id: string, newText: string)
    requires HasId(ts, id) && AllSpace(newText)
    ensures Edited(ts, id, Some(newText), true) == Deleted(ts, id)
  {
    TrimEmptyIffAllSpace(newText);
    assert FirstIndex(ts, id) != -1;
    assert Trim(newText) == [];
  }

  /** A non-blank reply changes only the matched record's text, to the trimmed reply. */
  lemma EditRenames(ts: seq<Task>, id: string, newText: string, confirmDelete: bool)
    requires HasId(ts, id) && !AllSpace(newText)
    ensures var r := Edited(ts, id, Some(newText), confirmDelete);
      var i := FirstIndex(ts, id);
      && |r| == |ts|
      && r[i] == Task(ts[i].id, Trim(newText), ts[i].completed)
      && r[i].text != [] && Trimmed(r[i].text)
      && forall k | 0 <= k < |ts| && k != i :: r[k] == ts[k]
  {
    TrimEmptyIffAllSpace(newText);
  }

  // ---------------------------------------------------------------------------
  // Load

  /** What `JSON.parse` made of the stored text: it threw, it gave something
      other than an array, or it gave an array of records. */
  datatype Parsed = ParseError | NotAnArray | TaskArray(items: seq<Task>)

  /** The list after loading: replaced only when the slot held a non-empty value
      that parsed to an array. */
  function Loaded(ts: seq<Task>, raw: Option<string>, parsed: Parsed): seq<Task> {
    if raw.None? || raw.value == [] then ts
    else if parsed.TaskArray? then parsed.items
    else ts
  }

  /** Loading changes the list only to a parsed array, and only from a non-empty slot. */
  lemma LoadReplacesOnlyWithArray(ts: seq<Task>, raw: Option<string>, parsed: Parsed)
    ensures var r := Loaded(ts, raw, parsed);
      && (r == ts || (raw.Some? && raw.value != [] && parsed.TaskArray? && r == parsed.items))
      && (raw.Some? && raw.value != [] && parsed.TaskArray? ==> r == parsed.items)
  {
  }

  // ---------------------------------------------------------------------------
  // Distinct ids

  lemma AddKeepsDistinct(ts: seq<Task>, input: string, freshId: string)
    requires DistinctIds(ts) && !HasId(ts, freshId)
    ensures DistinctIds(Added(ts, input, freshId))
  {
    if !IsBlank(input) {
      var t := CreateTask(freshId, input);
      assert Added(ts, input, freshId) == [t] + ts;
      PrependKeepsDistinct(t, ts);
    }
  }

  lemma PrependKeepsDistinct(t: Task, ts: seq<Task>)
    requires DistinctIds(ts) && !HasId(ts, t.id)
    ensures DistinctIds([t] + ts)
  {
    var r := [t] + ts;
    forall i, j | 0 <= i < j < |r| ensures r[i].id != r[j].id {
      assert r[j] == ts[j - 1];
      if i > 0 {
        assert r[i] == ts[i - 1];
      }
    }
  }

  lemma ToggleKeepsDistinct(ts: seq<Task>, id: string)
    requires DistinctIds(ts)
    ensures DistinctIds(Toggled(ts, id))
  {
    ToggleFrame(ts, id);
  }

  lemma {:induction false} DeleteKeepsDistinct(ts: seq<Task>, id: string)
    requires DistinctIds(ts)
    ensures DistinctIds(Deleted(ts, id))
  {
    if ts != [] {
      DeleteKeepsDistinct(ts[1..], id);
      var rest := Deleted(ts[1..], id);
      if ts[0].id != id {
        var r := [ts[0]] + rest;
        assert Deleted(ts, id) == r;
        forall j | 1 <= j < |r| ensures r[0].id != r[j].id {
          DeletedMembers(ts[1..], id, r[j]);
          assert r[j] in rest;
        }
      }
    }
  }

  lemma EditKeepsDistinct(ts: seq<Task>, id: string, reply: Option<string>, confirmDelete: bool)
    requires DistinctIds(ts)
    ensures DistinctIds(Edited(ts, id, reply, confirmDelete))
  {
    DeleteKeepsDistinct(ts, id);
  }

  // ---------------------------------------------------------------------------
  // Trimmed, non-empty texts

  /** Every record's text is non-empty and carries no surrounding whitespace. */
  predicate TextsTrimmed(ts: seq<Task>) {
    forall k | 0 <= k < |ts| :: ts[k].text != [] && Trimmed(ts[k].text)
  }

  lemma AddKeepsTexts(ts: seq<Task>, input: string, freshId: string)
    requires TextsTrimmed(ts)
    ensures TextsTrimmed(Added(ts, input, freshId))
  {
    BlankIffAllSpace(input);
    if !AllSpace(input) {
      AddPrepends(ts, input, freshId);
      var r := Added(ts, input, freshId);
      forall k | 1 <= k < |r| ensures r[k] == ts[k - 1] {
        assert r[k] == r[1..][k - 1];
      }
    }
  }

  lemma ToggleKeepsTexts(ts: seq<Task>, id: string)
    requires TextsTrimmed(ts)
    ensures TextsTrimmed(Toggled(ts, id))
  {
    ToggleFrame(ts, id);
  }

  lemma DeleteKeepsTexts(ts: seq<Task>, id: string)
    requires TextsTrimmed(ts)
    ensures TextsTrimmed(Deleted(ts, id))
  {
    var r := Deleted(ts, id);
    forall k | 0 <= k < |r| ensures r[k].text != [] && Trimmed(r[k].text) {
      DeletedMembers(ts, id, r[k]);
      var j :| 0 <= j < |ts| && ts[j] == r[k];
    }
  }

  lemma EditKeepsTexts(ts: seq<Task>, id: string, reply: Option<string>, confirmDelete: bool)
    requires TextsTrimmed(ts)
    ensures TextsTrimmed(Edited(ts, id, reply, confirmDelete))
  {
    if HasId(ts, id) && reply.Some? {
      if AllSpace(reply.value) {
        if confirmDelete {
          EditBlankConfirmedDeletes(ts, id, reply.value);
          DeleteKeepsTexts(ts, id);
        } else {
          EditNoChange(ts, id, reply, confirmDelete);
        }
      } else {
        EditRenames(ts, id, reply.value, confirmDelete);
      }
    } else {
      EditNoChange(ts, id, reply, confirmDelete);
    }
  }

  // ---------------------------------------------------------------------------
  // The event loop

  /** One user gesture, with the values the browser would supply for it. */
  datatype Intent =
    | Add(input: string, freshId: string)
    | Toggle(id: string)
    | Delete(id: string)
    | Edit(id: string, reply: Option<string>, confirmDelete: bool)

  function Apply(ts: seq<Task>, e: Intent): seq<Task> {
    match e
    case Add(input, freshId) => Added(ts, input, freshId)
    case Toggle(id) => Toggled(ts, id)
    case Delete(id) => Deleted(ts, id)
    case Edit(id, reply, confirmDelete) => Edited(ts, id, reply, confirmDelete)
  }

  /** The gestures handled one after another, each running to completion. */
  function Run(ts: seq<Task>, es: seq<Intent>): seq<Task>
    decreases |es|
  {
    if es == [] then ts else Run(Apply(ts, es[0]), es[1..])
  }

  /** Every id an add supplies is new to the list at the moment it is added. */
  predicate FreshIds(ts: seq<Task>, es: seq<Intent>)
    decreases |es|
  {
    es == [] ||
    ((es[0].Add? ==> !HasId(ts, es[0].freshId)) && FreshIds(Apply(ts, es[0]), es[1..]))
  }

  /** Ids stay distinct along any run of gestures whose adds use fresh ids. */
  lemma {:induction false} RunKeepsDistinct(ts: seq<Task>, es: seq<Intent>)
    requires DistinctIds(ts) && FreshIds(ts, es)
    ensures DistinctIds(Run(ts, es))
    decreases |es|
  {
    if es != [] {
      match es[0] {
        case Add(input, freshId) => AddKeepsDistinct(ts, input, freshId);
        case Toggle(id) => ToggleKeepsDistinct(ts, id);
        case Delete(id) => DeleteKeepsDistinct(ts, id);
        case Edit(id, reply, confirmDelete) => EditKeepsDistinct(ts, id, reply, confirmDelete);
      }
      RunKeepsDistinct(Apply(ts, es[0]), es[1..]);
    }
  }

  /** Along any run of gestures every text stays non-empty and trimmed. */
  lemma {:induction false} RunKeepsTexts(ts: seq<Task>, es: seq<Intent>)
    requires TextsTrimmed(ts)
    ensures TextsTrimmed(Run(ts, es))
    decreases |es|
  {
    if es != [] {
      match es[0] {
        case Add(input, freshId) => AddKeepsTexts(ts, input, freshId);
        case Toggle(id) => ToggleKeepsTexts(ts, id);
        case Delete(id) => DeleteKeepsTexts(ts, id);
        case Edit(id, reply, confirmDelete) => EditKeepsTexts(ts, id, reply, confirmDelete);
      }
      RunKeepsTexts(Apply(ts, es[0]), es[1..]);
    }
  }
}
