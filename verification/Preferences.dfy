/** Account preferences: complete sets, partial patches, merging and the normal form of a stored document. */
module Preferences {
  import opened Options

  datatype CalendarField = ShowStatusText | ShowPersonnelRoles | HighlightOnboarding | ShowDaysLane | ShowEventLanes |
    ShowAssignmentLanes
  datatype TrainingField = SelectedGroupId | SelectedViewId | MatrixViewMode | MatrixColorAll | MatrixCurrentMark |
    MatrixNeedsActionOnly

  datatype Value = Flag(on: bool) | Text(text: string) | Null

  type Calendar = map<CalendarField, Value>
  type Training = map<TrainingField, Value>

  datatype Patch = Patch(calendar: Option<Calendar>, training: Option<Training>)
  datatype Preferences = Preferences(calendar: Calendar, training: Training)

  const NO_PATCH := Patch(None, None)

  // ---------------------------------------------------------------- the schema

  predicate FitsCalendar(field: CalendarField, value: Value) {
    value.Flag?
  }

  predicate FitsTraining(field: TrainingField, value: Value) {
    match field
    case SelectedGroupId | SelectedViewId => !value.Flag?
    case MatrixViewMode => value == Text("alphabetical") || value == Text("by-group")
    case MatrixCurrentMark => value == Text("date") || value == Text("check") || value == Text("blank")
    case MatrixColorAll | MatrixNeedsActionOnly => value.Flag?
  }

  predicate TypedCalendar(c: Calendar) {
    forall f :: f in c ==> FitsCalendar(f, c[f])
  }

  predicate TypedTraining(t: Training) {
    forall f :: f in t ==> FitsTraining(f, t[f])
  }

  predicate Typed(p: Patch) {
    (p.calendar.Some? ==> TypedCalendar(p.calendar.value)) && (p.training.Some? ==> TypedTraining(p.training.value))
  }

  /** Every field is present and fits. */
  ghost predicate Complete(p: Preferences) {
    && TypedCalendar(p.calendar) && TypedTraining(p.training)
    && (forall f: CalendarField :: f in p.calendar) && (forall f: TrainingField :: f in p.training)
  }

  function DefaultCalendar(field: CalendarField): Value {
    match field
    case ShowStatusText | ShowPersonnelRoles => Flag(false)
    case HighlightOnboarding | ShowDaysLane | ShowEventLanes | ShowAssignmentLanes => Flag(true)
  }

  function DefaultTraining(field: TrainingField): Value {
    match field
    case SelectedGroupId | SelectedViewId => Null
    case MatrixViewMode => Text("by-group")
    case MatrixCurrentMark => Text("date")
    case MatrixColorAll | MatrixNeedsActionOnly => Flag(false)
  }

  function Default(): (p: Preferences)
    ensures Complete(p)
  {
    Preferences(map f: CalendarField | true :: DefaultCalendar(f), map f: TrainingField | true :: DefaultTraining(f))
  }

  // ---------------------------------------------------------------- merging

  function Fields<K, V>(section: Option<map<K, V>>): map<K, V> {
    if section.Some? then section.value else map[]
  }

  function Merge(base: Preferences, patch: Patch): Preferences {
    Preferences(base.calendar + Fields(patch.calendar), base.training + Fields(patch.training))
  }

  lemma MergeComplete(base: Preferences, patch: Patch)
    requires Complete(base) && Typed(patch)
    ensures Complete(Merge(base, patch))
  {
  }

  function MergeSection<K, V>(base: Option<map<K, V>>, incoming: Option<map<K, V>>): Option<map<K, V>> {
    if base.Some? || incoming.Some? then Some(Fields(base) + Fields(incoming)) else None
  }

  /** The patch that does `base` first and `incoming` after it. */
  function MergePatch(base: Patch, incoming: Patch): Patch {
    Patch(MergeSection(base.calendar, incoming.calendar), MergeSection(base.training, incoming.training))
  }

  /** Applying a merged patch is applying its parts in order. */
  lemma MergePatchComposes(p: Preferences, first: Patch, second: Patch)
    ensures Merge(p, MergePatch(first, second)) == Merge(Merge(p, first), second)
  {
    assert p.calendar + (Fields(first.calendar) + Fields(second.calendar))
        == (p.calendar + Fields(first.calendar)) + Fields(second.calendar);
    assert p.training + (Fields(first.training) + Fields(second.training))
        == (p.training + Fields(first.training)) + Fields(second.training);
  }

  /** A field of either section. */
  datatype Field = InCalendar(c: CalendarField) | InTraining(t: TrainingField)

  ghost function Read(p: Preferences, f: Field): Value
    requires Complete(p)
  {
    match f
    case InCalendar(c) => p.calendar[c]
    case InTraining(t) => p.training[t]
  }

  /** The value a patch sets a field to, if it sets it. */
  function Sets(patch: Patch, f: Field): Option<Value> {
    match f
    case InCalendar(c) => if c in Fields(patch.calendar) then Some(Fields(patch.calendar)[c]) else None
    case InTraining(t) => if t in Fields(patch.training) then Some(Fields(patch.training)[t]) else None
  }

  // ---------------------------------------------------------------- stored documents

  /** A stored section: the known fields it holds, and whatever else is in it. */
  datatype Section<K> = Section(fields: map<K, Value>, rest: string) | NoSection(text: string)

  datatype Raw = Document(calendar: Option<Section<CalendarField>>, training: Option<Section<TrainingField>>,
                          rest: string)
    | NoDocument(text: string)

  /** The patch a document reads as, unless some known field in it does not fit. Unknown keys are dropped. */
  function Parse(raw: Raw): Option<Patch> {
    match raw
    case NoDocument(_) => None
    case Document(c, t, _) =>
      if (c.Some? && (c.value.NoSection? || !TypedCalendar(c.value.fields))) ||
         (t.Some? && (t.value.NoSection? || !TypedTraining(t.value.fields)))
      then None
      else Some(Patch(if c.Some? then Some(c.value.fields) else None, if t.Some? then Some(t.value.fields) else None))
  }

  function Normalize(raw: Raw): (p: Preferences)
    ensures Complete(p)
  {
    match Parse(raw)
    case None => Default()
    case Some(patch) =>
      MergeComplete(Default(), patch);
      Merge(Default(), patch)
  }

  function Stored(p: Preferences): Raw {
    Document(Some(Section(p.calendar, "")), Some(Section(p.training, "")), "")
  }

  /** A complete set survives being stored and normalised again. */
  lemma NormalizeStored(p: Preferences)
    requires Complete(p)
    ensures Normalize(Stored(p)) == p
  {
    assert Default().calendar + p.calendar == p.calendar;
    assert Default().training + p.training == p.training;
  }

  /** Normalising is idempotent through the store, whatever document it started from. */
  lemma NormalizeIdempotent(raw: Raw)
    ensures Normalize(Stored(Normalize(raw))) == Normalize(raw)
  {
    NormalizeStored(Normalize(raw));
  }

  /** What each field may hold. */
  lemma FitsIff(value: Value)
    ensures forall c :: FitsCalendar(c, value) <==> value.Flag?
    ensures FitsTraining(SelectedGroupId, value) <==> value.Null? || value.Text?
    ensures FitsTraining(SelectedViewId, value) <==> value.Null? || value.Text?
    ensures FitsTraining(MatrixViewMode, value) <==> value in {Text("alphabetical"), Text("by-group")}
    ensures FitsTraining(MatrixCurrentMark, value) <==> value in {Text("date"), Text("check"), Text("blank")}
    ensures FitsTraining(MatrixColorAll, value) <==> value.Flag?
    ensures FitsTraining(MatrixNeedsActionOnly, value) <==> value.Flag?
  {
  }

  /** A document is read unless it is none, a section is none, or a known field of a section does not fit. */
  lemma ReadIff(raw: Raw)
    ensures Parse(raw).Some? <==>
            && raw.Document?
            && (raw.calendar.Some? ==>
                  raw.calendar.value.Section? &&
                  forall f :: f in raw.calendar.value.fields ==> FitsCalendar(f, raw.calendar.value.fields[f]))
            && (raw.training.Some? ==>
                  raw.training.value.Section? &&
                  forall f :: f in raw.training.value.fields ==> FitsTraining(f, raw.training.value.fields[f]))
  {
  }

  /** The value a document that can be read holds for a field, if any. */
  function Holds(raw: Raw, f: Field): Option<Value> {
    match raw
    case NoDocument(_) => None
    case Document(calendar, training, _) =>
      match f
      case InCalendar(c) =>
        if calendar.Some? && calendar.value.Section? && c in calendar.value.fields
        then Some(calendar.value.fields[c]) else None
      case InTraining(t) =>
        if training.Some? && training.value.Section? && t in training.value.fields
        then Some(training.value.fields[t]) else None
  }

  /** A field reads as the document has it, if the document can be read and has it, and as its default otherwise. */
  lemma NormalizeReads(raw: Raw, f: Field)
    ensures Read(Normalize(raw), f) ==
            if Parse(raw).Some? && Holds(raw, f).Some? then Holds(raw, f).value else Read(Default(), f)
  {
  }

  /**
   * Status texts and roles are hidden, the other calendar rows shown; the matrix goes by group, dates its marks, and
   * neither colours nor filters; no group or view is selected.
   */
  lemma DefaultsAre()
    ensures var p := Default();
            && Read(p, InCalendar(ShowStatusText)) == Flag(false)
            && Read(p, InCalendar(ShowPersonnelRoles)) == Flag(false)
            && Read(p, InCalendar(HighlightOnboarding)) == Flag(true)
            && Read(p, InCalendar(ShowDaysLane)) == Flag(true)
            && Read(p, InCalendar(ShowEventLanes)) == Flag(true)
            && Read(p, InCalendar(ShowAssignmentLanes)) == Flag(true)
            && Read(p, InTraining(SelectedGroupId)) == Null && Read(p, InTraining(SelectedViewId)) == Null
            && Read(p, InTraining(MatrixViewMode)) == Text("by-group")
            && Read(p, InTraining(MatrixCurrentMark)) == Text("date")
            && Read(p, InTraining(MatrixColorAll)) == Flag(false)
            && Read(p, InTraining(MatrixNeedsActionOnly)) == Flag(false)
  {
  }
}
