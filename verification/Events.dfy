/** The event dictionary on its way through the log pipeline: enriched, then redacted. */
module Events {
  import opened Wrappers
  import opened Texts
  import opened Redactor
  import opened NoResidue
  import opened SensitiveKeys
  import opened Values
  import opened Shapes
  import opened CorrelationContext
  import opened ContextKeys

  type Event = map<string, Value>

  function RedactField(key: string, v: Value): Value {
    if IsSensitiveKey(key) then Str(REDACTED) else ScrubValue(v, 0)
  }

  function RedactEvent(e: Event): Event {
    map key | key in e :: RedactField(key, e[key])
  }

  /** `extra` under the fields of `e`: what `e` has wins. */
  function Merge(extra: map<string, string>, e: Event): Event {
    map key | key in extra.Keys + e.Keys :: if key in e then e[key] else Str(extra[key])
  }

  class EventDict {
    var fields: Event

    constructor (e: Event)
      ensures fields == e
    {
      fields := e;
    }

    /** `redact_processor`: every key of a snapshot of the keys, in whatever order. */
    method Redact()
      modifies this
      ensures fields == RedactEvent(old(fields))
      // every key stays; under one that spells a secret word, in whatever case, stands the marker
      ensures fields.Keys == old(fields).Keys
      ensures forall key :: key in fields && NamesSecret(key) ==> fields[key] == Str("[REDACTED]")
    {
      ghost var before := fields;
      var pending := fields.Keys;
      while pending != {}
        invariant pending <= fields.Keys == old(fields).Keys
        invariant forall key :: key in fields ==>
          fields[key] == if key in pending then old(fields)[key] else RedactEvent(old(fields))[key]
        decreases |pending|
      {
        var key :| key in pending;
        if IsSensitiveKey(key) {
          fields := fields[key := Str(REDACTED)];
        } else {
          fields := fields[key := ScrubValue(fields[key], 0)];
        }
        pending := pending - {key};
      }
      RedactedByKey(before);
    }

    /** `correlation_processor`: `setdefault` for every field of the ambient context. */
    method Correlate(context: map<string, string>)
      modifies this
      ensures fields == Merge(context, old(fields))
    {
      fields := SetDefaults(context, fields);
    }
  }

  /** `dict.setdefault` for each item of `extra`. */
  method SetDefaults(extra: map<string, string>, target: Event) returns (r: Event)
    ensures forall key :: key in r <==> key in target || key in extra
    ensures forall key :: key in r ==> r[key] == if key in target then target[key] else Str(extra[key])
  {
    r := target;
    var pending := extra.Keys;
    while pending != {}
      invariant pending <= extra.Keys
      invariant forall key :: key in r <==> key in target || (key in extra && key !in pending)
      invariant forall key :: key in r ==> r[key] == if key in target then target[key] else Str(extra[key])
      decreases |pending|
    {
      var key :| key in pending;
      if key !in r {
        r := r[key := Str(extra[key])];
      }
      pending := pending - {key};
    }
  }

  /** `enrich`: start from the context, then write the payload over it. */
  method Enrich(context: map<string, string>, payload: Event) returns (merged: Event)
    ensures merged == Merge(context, payload)
  {
    merged := map key | key in context :: Str(context[key]);
    merged := Update(merged, payload);
  }

  /** `dict.update` */
  method Update(target: Event, source: Event) returns (r: Event)
    ensures forall key :: key in r <==> key in target || key in source
    ensures forall key :: key in r ==> r[key] == if key in source then source[key] else target[key]
  {
    r := target;
    var pending := source.Keys;
    while pending != {}
      invariant pending <= source.Keys
      invariant forall key :: key in r <==> key in target || (key in source && key !in pending)
      invariant forall key :: key in r ==>
        r[key] == if key in source && key !in pending then source[key] else target[key]
      decreases |pending|
    {
      var key :| key in pending;
      r := r[key := source[key]];
      pending := pending - {key};
    }
  }

  /** The two merges agree: adding what is missing in place, and writing over a copy. */
  method BothMerges(vars: Vars, payload: Event) returns (inPlace: Event, copied: Event)
    ensures inPlace == copied
    ensures forall key :: key in payload ==> key in inPlace && inPlace[key] == payload[key]
    ensures forall key :: key in inPlace && key !in payload ==>
      key in FIELD_NAMES && Get(vars, FieldNamed(key).value).Some? &&
      inPlace[key] == Str(Get(vars, FieldNamed(key).value).value)
    ensures forall f: Field :: Get(vars, f).Some? ==> FieldName(f) in inPlace
  {
    var d := new EventDict(payload);
    d.Correlate(CurrentContext(vars));
    inPlace := d.fields;
    copied := Enrich(CurrentContext(vars), payload);
    forall f: Field | Get(vars, f).Some? ensures FieldName(f) in CurrentContext(vars) {
      NamedByItsName(f);
    }
  }

  // ----- what redaction does to an event --------------------------------------------------

  /** A field whose name spells a secret word holds the marker; any other holds its scrubbed value. */
  lemma RedactedByKey(e: Event)
    ensures RedactEvent(e).Keys == e.Keys
    ensures forall key :: key in e ==>
      RedactEvent(e)[key] == if NamesSecret(key) then Str("[REDACTED]") else ScrubValue(e[key], 0)
  {
    forall key | key in e ensures IsSensitiveKey(key) <==> NamesSecret(key) { SensitiveIff(key); }
  }

  /** So a secret word anywhere in a key, in capitals or not, hides the value. */
  lemma WordInKeyHidesValue(e: Event, before: string, spelled: string, after: string, word: string)
    requires IsSecretWord(word) || IsPersonalWord(word)
    requires |spelled| == |word| && SpelledAt(spelled, 0, word)
    requires before + spelled + after in e
    ensures RedactEvent(e)[before + spelled + after] == Str("[REDACTED]")
  {
    WordInKeyIsSensitive(before, spelled, after, word);
  }

  /** No secret in any string value, the marker under every sensitive key, no sets, bounded
      nesting. */
  ghost predicate EventEmittable(e: Event) {
    forall key :: key in e ==>
      Emittable(e[key], MAX_SCRUB_DEPTH) && (IsSensitiveKey(key) ==> e[key] == Str(REDACTED))
  }

  lemma RedactedIsEmittable(e: Event)
    ensures RedactEvent(e).Keys == e.Keys && EventEmittable(RedactEvent(e))
  {
    MarkersHoldNoSecret();
    forall key | key in e ensures Emittable(RedactField(key, e[key]), MAX_SCRUB_DEPTH) {
      ScrubbedIsEmittable(e[key], 0);
    }
  }

  lemma RedactIdempotent(e: Event)
    ensures RedactEvent(RedactEvent(e)) == RedactEvent(e)
  {
    var r := RedactEvent(e);
    forall key | key in r ensures RedactField(key, r[key]) == r[key] {
      ScrubValueIdempotent(e[key], 0);
    }
    assert RedactEvent(r) == r;
  }

  /** An event comes through as it is exactly when every field is settled. */
  lemma EventUnchangedIff(e: Event)
    ensures RedactEvent(e) == e <==>
      forall key :: key in e ==> if IsSensitiveKey(key) then e[key] == Str(REDACTED) else Settled(e[key], 0)
  {
    forall key | key in e ensures ScrubValue(e[key], 0) == e[key] <==> Settled(e[key], 0) {
      UnchangedIffSettled(e[key], 0);
    }
    if RedactEvent(e) == e {
      forall key | key in e ensures RedactField(key, e[key]) == e[key] {
        assert RedactEvent(e)[key] == e[key];
      }
    }
  }

  /** Non-interference: two events give the same line exactly when they have the same keys and
      agree, under the keys that are not sensitive, up to what redaction hides. */
  lemma SameLineIff(e: Event, e': Event)
    ensures RedactEvent(e) == RedactEvent(e') <==>
      e.Keys == e'.Keys && forall key :: key in e ==> IsSensitiveKey(key) || Alike(e[key], e'[key], 0)
  {
    if e.Keys == e'.Keys {
      forall key | key in e
        ensures ScrubValue(e[key], 0) == ScrubValue(e'[key], 0) <==> Alike(e[key], e'[key], 0)
      {
        EqualOutputIffAlike(e[key], e'[key], 0);
      }
      if RedactEvent(e) == RedactEvent(e') {
        forall key | key in e ensures RedactField(key, e[key]) == RedactField(key, e'[key]) {
          assert RedactEvent(e)[key] == RedactEvent(e')[key];
        }
      } else {
        assert exists key :: key in e && RedactField(key, e[key]) != RedactField(key, e'[key]);
      }
    } else {
      assert RedactEvent(e).Keys == e.Keys && RedactEvent(e').Keys == e'.Keys;
    }
  }

  // ----- what is handed to the renderers ----------------------------------------------------

  ghost predicate EventShownClean(e: Event) {
    forall key :: key in e ==> Clean(key) && ShownClean(e[key])
  }

  /** The redactor lets nothing secret through from this field. */
  ghost predicate FieldPassedOnClean(key: string, v: Value) {
    Clean(key) && (IsSensitiveKey(key) || PassedOnClean(v, 0))
  }

  lemma FieldShownCleanIff(key: string, v: Value)
    ensures Clean(key) && ShownClean(RedactField(key, v)) <==> FieldPassedOnClean(key, v)
  {
    MarkersHoldNoSecret();
    ShownCleanIff(v, 0);
  }

  /** Behind the redactor stands `format_exc_info`: it takes `exc_info` out and puts the traceback
      in, when there is one. The result goes to the renderer. */
  function Emit(e: Event, traceback: Option<string>): Event {
    var rest := RedactEvent(e) - {"exc_info"};
    if traceback.None? then rest else rest["exception" := Str(traceback.value)]
  }

  /** The fields of the event that are still there when it is rendered. */
  predicate Survives(key: string, traceback: Option<string>) {
    key != "exc_info" && !(traceback.Some? && key == "exception")
  }

  /** What the renderer is handed shows no secret, keys and leaves included, exactly when the
      traceback holds none and no surviving field passes one on. */
  lemma EmittedIsCleanIff(e: Event, traceback: Option<string>)
    ensures EventShownClean(Emit(e, traceback)) <==>
            ((traceback.Some? ==> Clean(traceback.value)) &&
             forall key :: key in e && Survives(key, traceback) ==> FieldPassedOnClean(key, e[key]))
  {
    hide Clean, ShownClean, FieldPassedOnClean, RedactField;
    var line := Emit(e, traceback);
    ShortTextIsClean("exception");
    if traceback.Some? { TextShownClean(traceback.value); }
    forall key | key in e && Survives(key, traceback)
      ensures key in line && (Clean(key) && ShownClean(line[key]) <==> FieldPassedOnClean(key, e[key]))
    {
      FieldShownCleanIff(key, e[key]);
      assert line[key] == RedactField(key, e[key]);
    }
    forall key | key in line && !(traceback.Some? && key == "exception")
      ensures key in e && Survives(key, traceback) {}
    assert traceback.Some? ==> "exception" in line && line["exception"] == Str(traceback.value);
  }

  /** The line has the fields that survive, redacted, and the traceback as it is. */
  lemma EmittedFields(e: Event, traceback: Option<string>)
    ensures var line := Emit(e, traceback);
      "exc_info" !in line &&
      ("exception" in line <==> traceback.Some? || "exception" in e) &&
      (traceback.Some? ==> line["exception"] == Str(traceback.value)) &&
      (forall key :: key != "exc_info" && key != "exception" ==> (key in line <==> key in e)) &&
      forall key :: key in line && (key == "exception" ==> traceback.None?) ==>
        line[key] == if NamesSecret(key) then Str("[REDACTED]") else ScrubValue(e[key], 0)
  {
    RedactedByKey(e);
  }

  /** What the redactor does not cover: a secret in the traceback, or as the name of a field. */
  lemma SecretsPastTheRedactor(e: Event, p: Pattern, secret: string)
    requires HasShape(p, secret)
    ensures !EventShownClean(Emit(e, Some(secret)))
    ensures secret in e && Survives(secret, None) ==> !EventShownClean(Emit(e, None))
  {
    assert secret[0..|secret|] == secret;
    ShapeIff(p, secret, 0, |secret|);
    assert !NoMatch(p, secret);
    EmittedIsCleanIff(e, Some(secret));
    EmittedIsCleanIff(e, None);
  }

  lemma TextShownClean(s: string)
    ensures ShownClean(Str(s)) <==> Clean(s)
  {
  }

  /** The renderer's string goes to the standard library's root handler, whose formatter takes it
      for a foreign record: a fresh event around it runs through the shared processors again.
      `others` are the fields that the processors besides `correlation_processor` set. */
  function HandlerEvent(others: Event, context: map<string, string>, rendered: string): Event {
    RedactEvent(Merge(context, others["event" := Str(rendered)]))
  }

  /** So the rendered line is scrubbed as a whole, traceback, keys and leaves with it, and what the
      second renderer is handed shows no secret unless one of those other fields passes one on. */
  lemma HandlerEventIsCleanIff(others: Event, vars: Vars, rendered: string)
    ensures var line := HandlerEvent(others, CurrentContext(vars), rendered);
      "event" in line && line["event"] == Str(ScrubText(rendered)) && others.Keys <= line.Keys &&
      (EventShownClean(line) <==>
       forall key :: key in others && key != "event" ==> FieldPassedOnClean(key, others[key]))
  {
    hide Clean, ShownClean, FieldPassedOnClean, PassedOnClean;
    var e := Merge(CurrentContext(vars), others["event" := Str(rendered)]);
    EventKeyIsOpen();
    forall key | key in e
      ensures Clean(key) && ShownClean(RedactField(key, e[key])) <==>
              (key in others && key != "event" ==> FieldPassedOnClean(key, others[key]))
    {
      if key in others && key != "event" {
        FieldShownCleanIff(key, e[key]);
      } else {
        HandlerKeyIsClean(key);
        StringFieldIsShownClean(key, e[key]);
      }
    }
    var line := HandlerEvent(others, CurrentContext(vars), rendered);
    assert line.Keys == e.Keys;
    assert forall key :: key in e ==> line[key] == RedactField(key, e[key]);
    assert forall key :: key in others ==> key in e;
  }

  lemma HandlerKeyIsClean(key: string)
    requires key in FIELD_NAMES || key == "event"
    ensures Clean(key)
  {
    ShortTextIsClean(key);
  }

  lemma StringFieldIsShownClean(key: string, v: Value)
    requires v.Str? && Clean(key)
    ensures ShownClean(RedactField(key, v))
  {
    FieldShownCleanIff(key, v);
  }

  /** And it carries every correlation field that is set, scrubbed, unless it names that field
      itself. */
  lemma HandlerEventShowsContext(others: Event, vars: Vars, rendered: string, f: Field)
    requires FieldName(f) !in others
    ensures var line := HandlerEvent(others, CurrentContext(vars), rendered);
      (FieldName(f) in line <==> Get(vars, f).Some?) &&
      (Get(vars, f).Some? ==> line[FieldName(f)] == Str(ScrubText(Get(vars, f).value)))
  {
    FieldNameIsOpen(f);
    NamedByItsName(f);
    assert FieldName(f) != "event";
  }
}
