/** The workout record as the back end stores it, the request payload it is
    built from, and the normalisation that turns one into the other. */
module Records {
  import opened Text
  import opened Numbers

  datatype Option<T> = None | Some(value: T)

  /** A stored workout. Numeric fields hold what `_to_number` produces for
      integral inputs (non-integral values are not modelled); `kind` is the
      record's "type" field. */
  datatype Workout = Workout(
    id: string,
    date: string,
    exercise: string,
    kind: string,
    duration: int,
    sets: int,
    reps: int,
    weight: int)

  /** A JSON request body. A string field is `None` when the key is absent
      or null; a body that is not JSON at all has every field absent. */
  datatype Payload = Payload(
    date: Option<string>,
    exercise: Option<string>,
    kind: Option<string>,
    duration: NumberInput,
    sets: NumberInput,
    reps: NumberInput,
    weight: NumberInput)

  /** `(payload.get(key) or "").strip()`: an absent, null or empty field
      becomes the empty string; anything else loses exactly its surrounding
      whitespace. */
  function FieldText(v: Option<string>): (r: string)
    ensures v.None? ==> r == []
    ensures v.Some? ==> IsStripOf(r, v.value) && Trimmed(r)
  {
    match v
    case None => []
    case Some(s) => Strip(s)
  }

  /** The normalised record `validate_and_normalize` builds. */
  function Normalize(payload: Payload, existingId: Option<string>, freshId: string): (w: Workout)
    ensures existingId.Some? && existingId.value != [] ==> w.id == existingId.value
    ensures existingId.None? || existingId.value == [] ==> w.id == freshId
    ensures payload.date.None? ==> w.date == []
    ensures payload.date.Some? ==> IsStripOf(w.date, payload.date.value) && Trimmed(w.date)
    ensures payload.exercise.None? ==> w.exercise == []
    ensures payload.exercise.Some? ==> IsStripOf(w.exercise, payload.exercise.value) && Trimmed(w.exercise)
    ensures payload.kind.None? ==> w.kind == []
    ensures payload.kind.Some? ==> IsStripOf(w.kind, payload.kind.value) && Trimmed(w.kind)
    ensures w.duration == ToNumber(payload.duration, 0) && w.sets == ToNumber(payload.sets, 0)
    ensures w.reps == ToNumber(payload.reps, 0) && w.weight == ToNumber(payload.weight, 0)
  {
    Workout(
      if existingId.Some? && existingId.value != [] then existingId.value else freshId,
      FieldText(payload.date),
      FieldText(payload.exercise),
      FieldText(payload.kind),
      ToNumber(payload.duration, 0),
      ToNumber(payload.sets, 0),
      ToNumber(payload.reps, 0),
      ToNumber(payload.weight, 0))
  }

  /** The body a client sends back when it saves a stored record unchanged. */
  function AsPayload(w: Workout): Payload {
    Payload(Some(w.date), Some(w.exercise), Some(w.kind),
            Integer(w.duration), Integer(w.sets), Integer(w.reps), Integer(w.weight))
  }

  /** Normalising is idempotent: sending a normalised record back under its
      own id yields the very same record, whatever fresh id is on offer. */
  lemma NormalizeRoundTrip(payload: Payload, existingId: Option<string>, freshId: string, otherId: string)
    requires Normalize(payload, existingId, freshId).id != []
    ensures var w := Normalize(payload, existingId, freshId);
      Normalize(AsPayload(w), Some(w.id), otherId) == w
  {
    var w := Normalize(payload, existingId, freshId);
    TextFieldsRoundTrip(payload, w, otherId);
    NumericFieldsRoundTrip(payload, w, otherId);
  }

  lemma TextFieldsRoundTrip(payload: Payload, w: Workout, otherId: string)
    requires w.date == FieldText(payload.date) && w.exercise == FieldText(payload.exercise)
    requires w.kind == FieldText(payload.kind)
    ensures var v := Normalize(AsPayload(w), Some(w.id), otherId);
      v.date == w.date && v.exercise == w.exercise && v.kind == w.kind
  {
    FieldTextRoundTrip(payload.date);
    FieldTextRoundTrip(payload.exercise);
    FieldTextRoundTrip(payload.kind);
  }

  lemma NumericFieldsRoundTrip(payload: Payload, w: Workout, otherId: string)
    requires w.duration == ToNumber(payload.duration, 0) && w.sets == ToNumber(payload.sets, 0)
    requires w.reps == ToNumber(payload.reps, 0) && w.weight == ToNumber(payload.weight, 0)
    ensures var v := Normalize(AsPayload(w), Some(w.id), otherId);
      v.duration == w.duration && v.sets == w.sets && v.reps == w.reps && v.weight == w.weight
  {
    ToNumberIdempotent(payload.duration, 0, 0);
    ToNumberIdempotent(payload.sets, 0, 0);
    ToNumberIdempotent(payload.reps, 0, 0);
    ToNumberIdempotent(payload.weight, 0, 0);
  }

  lemma FieldTextRoundTrip(v: Option<string>)
    ensures FieldText(Some(FieldText(v))) == FieldText(v)
  {
    StripOfTrimmed(FieldText(v));
  }

  /** A field given as nothing but whitespace normalises to the empty
      string, and only such a field (or an absent one) does. */
  lemma NormalizedFieldEmptyIffBlank(v: Option<string>)
    ensures FieldText(v) == [] <==> (v.None? || forall i :: 0 <= i < |v.value| ==> IsSpace(v.value[i]))
  {
    if v.Some? {
      StripEmptyIffBlank(v.value);
    }
  }
}
