/**
 The shape tolerance of `display_results`: how each entry of the
 `matched`, `missing` and `priorities` lists is read, whatever shape the
 model gave it, and the colour band of a priority's weight.
 */
module Display {
  import opened JsonValue

  /** The detail key of a `matched` entry: {"item": …, "evidence": […]}. */
  const EvidenceKey: string := "evidence"
  /** The detail key of a `missing` entry: {"item": …, "action": …}. */
  const ActionKey: string := "action"

  /** An entry of `matched` or `missing`, in the three shapes the display
      accepts: the requested {item, <detail>} object, the older
      {title, description} object, and anything else, shown as it is. */
  datatype Entry =
    | Detailed(item: Json, detail: Json)
    | Titled(title: Json, description: Json)
    | Bare(value: Json)

  /** The object has both keys. */
  ghost predicate HasBoth(j: Json, k1: string, k2: string) {
    j.JObject? && k1 in j.fields && k2 in j.fields
  }

  /** The reading of one entry, given the detail key of its list. The
      {item, <detail>} shape is tried first, then {title, description}. */
  function Classify(entry: Json, detailKey: string): (e: Entry)
    ensures e.Detailed? <==> HasBoth(entry, "item", detailKey)
    ensures e.Titled? <==> !HasBoth(entry, "item", detailKey) && HasBoth(entry, "title", "description")
    ensures e.Detailed? ==> e.item == entry.fields["item"] && e.detail == entry.fields[detailKey]
    ensures e.Titled? ==> e.title == entry.fields["title"] && e.description == entry.fields["description"]
    ensures e.Bare? ==> e.value == entry
  {
    if entry.JObject? && "item" in entry.fields && detailKey in entry.fields then
      Detailed(entry.fields["item"], entry.fields[detailKey])
    else if entry.JObject? && "title" in entry.fields && "description" in entry.fields then
      Titled(entry.fields["title"], entry.fields["description"])
    else
      Bare(entry)
  }

  /** A `matched` entry: {item, evidence} first, then {title, description}. */
  function ClassifyMatched(entry: Json): (e: Entry)
    ensures e.Detailed? <==> HasBoth(entry, "item", "evidence")
    ensures e.Titled? <==> !HasBoth(entry, "item", "evidence") && HasBoth(entry, "title", "description")
  {
    Classify(entry, EvidenceKey)
  }

  /** A `missing` entry: {item, action} first, then {title, description}. */
  function ClassifyMissing(entry: Json): (e: Entry)
    ensures e.Detailed? <==> HasBoth(entry, "item", "action")
    ensures e.Titled? <==> !HasBoth(entry, "item", "action") && HasBoth(entry, "title", "description")
  {
    Classify(entry, ActionKey)
  }

  /** The object the prompt's schema asks for, for each shape. Reading
      it back gives the entry again; so does a bare value that is in
      neither object shape. */
  function EntryObject(e: Entry, detailKey: string): (j: Json)
    requires detailKey != "item" && detailKey != "title" && detailKey != "description"
    requires e.Bare? ==>
      !HasBoth(e.value, "item", detailKey) && !HasBoth(e.value, "title", "description")
    ensures Classify(j, detailKey) == e
  {
    match e
    case Detailed(i, d) => JObject(map["item" := i, detailKey := d])
    case Titled(t, d) => JObject(map["title" := t, "description" := d])
    case Bare(v) => v
  }

  /** An object carrying both key pairs is read in the {item, <detail>}
      shape: that shape takes precedence. */
  lemma DetailedTakesPrecedence(fields: map<string, Json>, detailKey: string)
    requires "item" in fields && detailKey in fields
    requires "title" in fields && "description" in fields
    ensures Classify(JObject(fields), detailKey) == Detailed(fields["item"], fields[detailKey])
  {
  }

  /** A `priorities` entry: an object is read with defaults for its
      missing fields, anything else is the older plain form. The weight
      is `None` when the display would raise on it (see WeightOf). */
  datatype Priority =
    | Weighted(name: Json, weight: Option<real>, explanation: Json)
    | Legacy(value: Json)

  /** The least magnitude that double-precision rounding (to nearest,
      ties to even) turns into an infinity: 2^1024 - 2^970, halfway between
      the largest finite double and 2^1024. */
  const OverflowBound: real := 179769313486231580793728971405303415079934132710037826936173778980444968292764750946649017977587207096330286416692887910946555547851940402630657488671505820681908902000708383676273854845817711531764475730270069855571366959622842914819860834936475292719074168444365510704342711559699508093042880177904174497792.0

  /** `weight * 100` on a double overflows to an infinity, on which
      `int(...)` raises `OverflowError`. */
  predicate HundredfoldOverflows(x: real) {
    x * 100.0 >= OverflowBound || x * 100.0 <= -OverflowBound
  }

  /** `priority.get('weight', 0)` as a number, booleans counting as 0 and 1.
      A weight has no value when app.py raises on it: `int(weight * 100)`
      raises on a non-finite float, on a float whose hundredfold overflows,
      and on null, lists and objects, and the comparison with 0.7 raises on
      a string. Python compares an integer with 0.7 exactly, so integers
      always have a value. */
  function WeightOf(fields: map<string, Json>): (w: Option<real>)
    ensures "weight" !in fields ==> w == Some(0.0)
    ensures w.None? <==>
      && "weight" in fields
      && !(fields["weight"].JInt? || fields["weight"].JBool?
           || (fields["weight"].JFloat? && !HundredfoldOverflows(fields["weight"].x)))
    ensures "weight" in fields && fields["weight"].JInt? ==> w == Some(fields["weight"].i as real)
    ensures "weight" in fields && fields["weight"].JFloat? && !HundredfoldOverflows(fields["weight"].x) ==>
      w == Some(fields["weight"].x)
    ensures "weight" in fields && fields["weight"].JBool? ==> w == Some(if fields["weight"].b then 1.0 else 0.0)
  {
    match Get(fields, "weight", JInt(0))
    case JInt(i) => Some(i as real)
    case JFloat(x) => if HundredfoldOverflows(x) then None else Some(x)
    case JBool(b) => Some(if b then 1.0 else 0.0)
    case _ => None
  }

  /** A weight of 1e307 overflows when multiplied by 100 and has no value;
      one of 1.797e306 stays finite and keeps its value. */
  lemma HundredfoldOverflowBoundary()
    ensures WeightOf(map["weight" := JFloat(1e307)]) == None
    ensures WeightOf(map["weight" := JFloat(1.797e306)]) == Some(1.797e306)
  {
  }

  /** A `priorities` entry: an object is read by name, weight and
      explanation, with the defaults of `.get`; anything else is kept. */
  function ClassifyPriority(p: Json): (r: Priority)
    ensures r.Weighted? <==> p.JObject?
    ensures r.Legacy? ==> r.value == p
    ensures r.Weighted? ==>
      && ("name" in p.fields ==> r.name == p.fields["name"])
      && ("name" !in p.fields ==> r.name == JString(""))
      && ("explanation" in p.fields ==> r.explanation == p.fields["explanation"])
      && ("explanation" !in p.fields ==> r.explanation == JString(""))
      && r.weight == WeightOf(p.fields)
  {
    match p
    case JObject(f) => Weighted(Get(f, "name", JString("")), WeightOf(f), Get(f, "explanation", JString("")))
    case _ => Legacy(p)
  }

  /** The colour band of a weight: green from 0.7, amber from 0.5, red below. */
  datatype Band = Green | Amber | Red

  /** The colour the band is drawn in. */
  function BandColour(b: Band): string {
    match b
    case Green => "#28a745"
    case Amber => "#ffc107"
    case Red => "#dc3545"
  }

  /** The colour a priority of this weight is drawn in: green from 0.7,
      amber from 0.5, red below. */
  function ColourOf(weight: real): (c: string)
    ensures c == "#28a745" <==> weight >= 0.7
    ensures c == "#ffc107" <==> 0.5 <= weight < 0.7
    ensures c == "#dc3545" <==> weight < 0.5
  {
    var c := BandColour(BandOf(weight));
    assert "#28a745"[1] != "#ffc107"[1] && "#28a745"[1] != "#dc3545"[1] && "#ffc107"[1] != "#dc3545"[1];
    c
  }

  /** The band a weight falls in, by the thresholds of the colour choice. */
  function BandOf(weight: real): (b: Band)
    ensures b == Green <==> weight >= 0.7
    ensures b == Amber <==> 0.5 <= weight < 0.7
    ensures b == Red <==> weight < 0.5
  {
    if weight >= 0.7 then Green else if weight >= 0.5 then Amber else Red
  }

  /** Red below amber below green. */
  function Rank(b: Band): nat {
    match b
    case Red => 0
    case Amber => 1
    case Green => 2
  }

  /** A heavier weight never gets a lower band. */
  lemma BandMonotonic(w1: real, w2: real)
    requires w1 <= w2
    ensures Rank(BandOf(w1)) <= Rank(BandOf(w2))
  {
  }

  /** A priority object without a weight is drawn red. */
  lemma MissingWeightIsRed(fields: map<string, Json>)
    requires "weight" !in fields
    ensures ClassifyPriority(JObject(fields)).weight == Some(0.0)
    ensures BandOf(ClassifyPriority(JObject(fields)).weight.value) == Red
  {
  }
}
