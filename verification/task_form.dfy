/** The task form: the record it edits, how it is filled from a task being
    edited, and what a submit sends on, with the tag text split into a list. */
module TaskForm {
  import opened Tasks
  import opened Seqs
  import opened Text
  import opened TaskStore

  /** The form's state; the tags are one comma-separated string. */
  datatype FormData = FormData(
    title: string,
    description: string,
    priority: Priority,
    category: string,
    dueDate: DueDate,
    tags: string)

  /** The form's initial state, and the state it returns to after a submit. */
  const EmptyForm := FormData("", "", Medium, "personal", NoDueDate, "")

  /** A tag as the parser produces it: non-empty, trimmed, without a comma. */
  predicate WellFormedTag(tag: string)
  {
    tag != "" && Trimmed(tag) && ',' !in tag
  }

  /** The form filled from the task being edited: an empty category falls back
      to 'personal', and the tags are joined with ", ". */
  function Prefill(t: Task): (f: FormData)
    ensures f.title == t.title && f.description == t.description
    ensures f.priority == t.priority && f.dueDate == t.dueDate
    ensures f.category != "" && (t.category != "" ==> f.category == t.category)
    ensures t.category == "" ==> f.category == "personal"
    ensures f.tags == Join(t.tags, ", ")
  {
    FormData(
      t.title,
      t.description,
      t.priority,
      if t.category != "" then t.category else "personal",
      t.dueDate,
      Join(t.tags, ", "))
  }

  /** Every field a task leaves empty is filled as in the empty form. */
  lemma PrefillEmptyFields(t: Task)
    ensures var f := Prefill(t);
      && (t.title == "" ==> f.title == EmptyForm.title)
      && (t.description == "" ==> f.description == EmptyForm.description)
      && (t.category == "" ==> f.category == EmptyForm.category)
      && (t.dueDate == NoDueDate ==> f.dueDate == EmptyForm.dueDate)
      && (t.tags == [] ==> f.tags == EmptyForm.tags)
  {
  }

  // ---------------------------------------------------------------- tags

  /** `.map(tag => tag.trim())`. */
  function TrimAll(parts: seq<string>): (r: seq<string>)
    ensures |r| == |parts|
    ensures forall k :: 0 <= k < |r| ==> r[k] == Trim(parts[k])
  {
    seq(|parts|, k requires 0 <= k < |parts| => Trim(parts[k]))
  }

  /** `filter(Boolean)` on strings keeps the non-empty ones. */
  predicate NonEmpty(s: string)
  {
    s != ""
  }

  /** Trimming comma-free pieces leaves them trimmed and comma-free. */
  lemma TrimmedPiecesCommaFree(pieces: seq<string>)
    requires forall k :: 0 <= k < |pieces| ==> ',' !in pieces[k]
    ensures forall k :: 0 <= k < |pieces| ==> Trimmed(TrimAll(pieces)[k]) && ',' !in TrimAll(pieces)[k]
  {
    forall k | 0 <= k < |pieces|
      ensures ',' !in Trim(pieces[k])
    {
      TrimChars(pieces[k]);
    }
  }

  /** The tag string split at commas, each piece trimmed, empty pieces dropped;
      an empty string gives no tags. */
  function ParseTags(s: string): (r: seq<string>)
    ensures s == "" ==> r == []
    ensures forall k :: 0 <= k < |r| ==> WellFormedTag(r[k])
  {
    if s == "" then []
    else
      var pieces := Split(s, ',');
      var trimmed := TrimAll(pieces);
      TrimmedPiecesCommaFree(pieces);
      var r := Filter(trimmed, NonEmpty);
      assert forall k :: 0 <= k < |r| ==> r[k] in trimmed && NonEmpty(r[k]) by {
        assert forall k :: 0 <= k < |r| ==> r[k] in r;
      }
      r
  }

  /** The pieces after the first, each still carrying the blank after its comma. */
  function Spaced(parts: seq<string>): (r: seq<string>)
    ensures |r| == |parts|
    ensures forall k :: 0 <= k < |r| ==> r[k] == " " + parts[k]
  {
    seq(|parts|, k requires 0 <= k < |parts| => " " + parts[k])
  }

  /** Splitting a ", "-joined list at its commas, with a comma-free `q` in front. */
  lemma {:induction false} SplitJoined(q: string, parts: seq<string>)
    requires ',' !in q && parts != []
    requires forall k :: 0 <= k < |parts| ==> ',' !in parts[k]
    ensures Split(q + Join(parts, ", "), ',') == [q + parts[0]] + Spaced(parts[1..])
    decreases |parts|
  {
    if |parts| == 1 {
      SplitNoSeparator(q + parts[0], ',');
    } else {
      var rest := parts[1..];
      assert Join(parts, ", ") == parts[0] + ", " + Join(rest, ", ");
      assert q + Join(parts, ", ") == (q + parts[0]) + [','] + (" " + Join(rest, ", "));
      SplitAtFirstSeparator(q + parts[0], ',', " " + Join(rest, ", "));
      SplitJoined(" ", rest);
      assert Spaced(rest) == [" " + rest[0]] + Spaced(rest[1..]);
    }
  }

  /** One piece of a ", "-joined list, trimmed. */
  lemma TrimPiece(tags: seq<string>, k: nat)
    requires k < |tags| && Trimmed(tags[k])
    ensures Trim(([tags[0]] + Spaced(tags[1..]))[k]) == tags[k]
  {
    if k == 0 {
      TrimTrimmed(tags[0]);
    } else {
      assert ([tags[0]] + Spaced(tags[1..]))[k] == " " + tags[k];
      TrimBlankPrefix(tags[k]);
    }
  }

  /** Trimming the pieces of a ", "-joined list gives the list back. */
  lemma TrimPieces(tags: seq<string>)
    requires tags != []
    requires forall k :: 0 <= k < |tags| ==> Trimmed(tags[k])
    ensures TrimAll([tags[0]] + Spaced(tags[1..])) == tags
  {
    var trimmed := TrimAll([tags[0]] + Spaced(tags[1..]));
    forall k | 0 <= k < |tags|
      ensures trimmed[k] == tags[k]
    {
      TrimPiece(tags, k);
    }
  }

  /** A ", "-joined list of tags, split at its commas. */
  lemma SplitJoinedTags(tags: seq<string>)
    requires tags != []
    requires forall k :: 0 <= k < |tags| ==> WellFormedTag(tags[k])
    ensures Join(tags, ", ") != ""
    ensures Split(Join(tags, ", "), ',') == [tags[0]] + Spaced(tags[1..])
  {
    var text := Join(tags, ", ");
    assert StartsWith(text, tags[0]);
    SplitJoined("", tags);
    assert "" + text == text && "" + tags[0] == tags[0];
  }

  /** Joining well-formed tags with ", " for the form, then parsing the text
      again, gives back the same tags. */
  lemma ParseJoinedTags(tags: seq<string>)
    requires forall k :: 0 <= k < |tags| ==> WellFormedTag(tags[k])
    ensures ParseTags(Join(tags, ", ")) == tags
  {
    if tags != [] {
      SplitJoinedTags(tags);
      TrimPieces(tags);
      FilterAllKept(tags, NonEmpty);
    }
  }

  /** A task's well-formed tags survive being put into the form and parsed
      back on submit. */
  lemma PrefillTagsRoundTrip(t: Task)
    requires forall k :: 0 <= k < |t.tags| ==> WellFormedTag(t.tags[k])
    ensures ParseTags(Prefill(t).tags) == t.tags
  {
    ParseJoinedTags(t.tags);
  }

  // ---------------------------------------------------------------- submit

  /** The title check: something other than whitespace must be typed. */
  predicate TitleAccepted(f: FormData)
    ensures TitleAccepted(f) ==> f.title != ""
  {
    Trim(f.title) != ""
  }

  /** The title is accepted exactly when it holds a character that is not whitespace. */
  lemma TitleAcceptedIff(f: FormData)
    ensures TitleAccepted(f) <==> exists k :: 0 <= k < |f.title| && !IsWhitespace(f.title[k])
  {
    TrimEmptyIff(f.title);
  }

  /** The `taskData` a submit passes on: the form's fields as they are, the
      title untrimmed, and the tags parsed into a list. */
  function SubmittedData(f: FormData): (d: Fields)
    ensures d.title == Some(f.title) && d.completed == None
    ensures d.description == Some(f.description) && d.priority == Some(f.priority)
    ensures d.category == Some(f.category) && d.dueDate == Some(f.dueDate)
    ensures d.tags == Some(ParseTags(f.tags))
    ensures d.tags.Some? && forall k :: 0 <= k < |d.tags.value| ==> WellFormedTag(d.tags.value[k])
  {
    Fields(Some(f.title), Some(f.description), Some(f.priority), Some(f.category),
           Some(f.dueDate), Some(ParseTags(f.tags)), None)
  }

  /** Opening a task for editing and saving it unchanged only moves its
      `updatedAt`, provided its category is set and its tags are well formed. */
  lemma EditUnchangedKeepsTask(t: Task, now: int)
    requires t.category != ""
    requires forall k :: 0 <= k < |t.tags| ==> WellFormedTag(t.tags[k])
    ensures ApplyPatch(t, SubmittedData(Prefill(t)), now) == t.(updatedAt := now)
  {
    PrefillTagsRoundTrip(t);
  }

  /** The form component's state. */
  class TaskFormState {
    var formData: FormData

    constructor()
      ensures formData == EmptyForm
    {
      formData := EmptyForm;
    }

    /** The effect that runs when `initialData` changes. */
    method LoadInitialData(initialData: Option<Task>)
      modifies this
      ensures initialData.Some? ==> formData == Prefill(initialData.value)
      ensures initialData.None? ==> formData == old(formData)
    {
      if initialData.Some? {
        formData := Prefill(initialData.value);
      }
    }

    /** `handleSubmit`: a blank title sends nothing and keeps the form; otherwise
        the data is sent on and the form is reset. */
    method HandleSubmit() returns (submitted: Option<Fields>)
      modifies this
      ensures !TitleAccepted(old(formData)) ==> submitted == None && formData == old(formData)
      ensures TitleAccepted(old(formData)) ==> submitted == Some(SubmittedData(old(formData))) && formData == EmptyForm
    {
      if Trim(formData.title) == "" {
        return None;
      }
      var taskData := SubmittedData(formData);
      submitted := Some(taskData);
      formData := EmptyForm;
    }
  }
}
