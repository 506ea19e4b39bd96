/**
 * The errors the core returns. Each constant error corresponds to one
 * message string of the Go code; the HTTP layer selects status codes by
 * comparing those strings, so the texts are kept verbatim.
 */
module Errors {
  import opened Wrappers
  import Text

  datatype Error =
    | IncompleteFields        // single insert, missing mandatory field
    | DuplicateId             // single insert, id already stored
    | VehicleNotFound         // lookup, delete or update of an absent id
    | NoMatchingVehicles      // colour+year or brand+years filter matched nothing
    | BatchIncomplete         // batch insert, some vehicle misses a field
    | BatchDuplicateId        // batch insert, some id already stored
    | SpeedOutOfRange         // speed update with a non-positive speed
    | NoFuelMatches           // fuel filter matched nothing
    | NoTransmissionMatches   // transmission filter matched nothing
    | ParseFailure(num: string, kind: Text.NumErrorKind)  // strconv.Atoi rejected `num`

  /** `err.Error()` for each error. */
  function Message(e: Error): (r: string)
    ensures e.ParseFailure? ==> ParsePrefix <= r && e.num <= r[|ParsePrefix|..]
  {
    match e
    case IncompleteFields => "Campos incompletos o mal formados"
    case DuplicateId => "Identificador del vehículo ya existente"
    case VehicleNotFound => "Vehicle not found"
    case NoMatchingVehicles => "No se encontraron vehículos con esos criterios"
    case BatchIncomplete => "Datos de algún vehículo mal formados o incompletos"
    case BatchDuplicateId => "Algún vehículo tiene un identificador ya existente"
    case SpeedOutOfRange => "Velocidad mal formada o fuera de rango."
    case NoFuelMatches => "No se encontraron vehículos con ese tipo de combustible"
    case NoTransmissionMatches => "No se encontraron vehículos con ese tipo de transmisión"
    case ParseFailure(num, kind) => ParsePrefix + num + "\": " + KindText(kind)
  }

  /** The fixed start of a `*strconv.NumError` message from Atoi. */
  const ParsePrefix: string := "strconv.Atoi: parsing \""

  /** The text of each `*strconv.NumError` kind. */
  function KindText(kind: Text.NumErrorKind): string {
    match kind
    case ErrSyntax => "invalid syntax"
    case ErrRange => "value out of range"
  }

  /**
   * The messages tell the errors apart: the HTTP layer dispatches on the
   * message text, so two different errors never share one.
   */
  lemma MessageIdentifiesError(a: Error, b: Error)
    requires Message(a) == Message(b)
    ensures a == b
  {
    if a.ParseFailure? && b.ParseFailure? {
      ParseMessagesDiffer(a, b);
    } else if a.ParseFailure? {
      ParseAndFixedMessagesDiffer(a, b);
    } else if b.ParseFailure? {
      ParseAndFixedMessagesDiffer(b, a);
    } else {
      FixedMessagesDiffer(a, b);
    }
  }

  lemma ParseAndFixedMessagesDiffer(p: Error, f: Error)
    requires p.ParseFailure? && !f.ParseFailure?
    ensures Message(p) != Message(f)
  {
    ParseMessageEnding(p);
    FixedMessageSignature(f);
  }

  lemma FixedMessagesDiffer(a: Error, b: Error)
    requires !a.ParseFailure? && !b.ParseFailure? && Message(a) == Message(b)
    ensures a == b
  {
    FixedMessageSignature(a);
    FixedMessageSignature(b);
    assert Signature(a) == Signature(b);
  }

  /** Length and last two characters of each fixed message; these already differ pairwise. */
  function Signature(e: Error): (nat, char, char) {
    match e
    case IncompleteFields => (33, 'o', 's')
    case DuplicateId => (39, 't', 'e')
    case VehicleNotFound => (17, 'n', 'd')
    case NoMatchingVehicles => (46, 'o', 's')
    case BatchIncomplete => (50, 'o', 's')
    case BatchDuplicateId => (50, 't', 'e')
    case SpeedOutOfRange => (39, 'o', '.')
    case NoFuelMatches => (55, 'l', 'e')
    case NoTransmissionMatches => (55, 'ó', 'n')
    case ParseFailure(_, _) => (0, ' ', ' ')
  }

  /** The fixed messages have the lengths and endings `Signature` lists. */
  lemma FixedMessageSignature(e: Error)
    requires !e.ParseFailure?
    ensures HasSignature(e)
  {
    if e.IncompleteFields? || e.DuplicateId? || e.VehicleNotFound? {
      SignatureOfIncompleteDuplicateNotFound(e);
    } else if e.NoMatchingVehicles? || e.BatchIncomplete? || e.BatchDuplicateId? {
      SignatureOfNoMatchAndBatchErrors(e);
    } else {
      SignatureOfSpeedFuelTransmission(e);
    }
  }

  predicate HasSignature(e: Error) {
    var m := Message(e);
    |m| == Signature(e).0 && |m| >= 2 && m[|m| - 2] == Signature(e).1 && m[|m| - 1] == Signature(e).2
  }

  lemma SignatureOfIncompleteDuplicateNotFound(e: Error)
    requires e.IncompleteFields? || e.DuplicateId? || e.VehicleNotFound?
    ensures HasSignature(e)
  {
  }

  lemma SignatureOfNoMatchAndBatchErrors(e: Error)
    requires e.NoMatchingVehicles? || e.BatchIncomplete? || e.BatchDuplicateId?
    ensures HasSignature(e)
  {
  }

  lemma SignatureOfSpeedFuelTransmission(e: Error)
    requires e.SpeedOutOfRange? || e.NoFuelMatches? || e.NoTransmissionMatches?
    ensures HasSignature(e)
  {
  }

  /** Every parse failure message ends in "syntax" or "range". */
  lemma ParseMessageEnding(e: Error)
    requires e.ParseFailure?
    ensures var m := Message(e);
            |m| >= 2 && (m[|m| - 2], m[|m| - 1]) in {('a', 'x'), ('g', 'e')}
  {
    var t := KindText(e.kind);
    assert Message(e) == (ParsePrefix + e.num + "\": ") + t;
  }

  lemma ParseMessagesDiffer(a: Error, b: Error)
    requires a.ParseFailure? && b.ParseFailure? && Message(a) == Message(b)
    ensures a == b
  {
    if a.kind == b.kind {
      ParseMessageNum(a);
      ParseMessageNum(b);
    } else {
      ParseMessageLast(a);
      ParseMessageLast(b);
    }
  }

  /** The rejected text sits right after the fixed prefix, and fixes the length. */
  lemma ParseMessageNum(e: Error)
    requires e.ParseFailure?
    ensures var m := Message(e); var n := |ParsePrefix|;
            |m| == n + |e.num| + 3 + |KindText(e.kind)| && m[n..n + |e.num|] == e.num
  {
    var n, rest := |ParsePrefix|, "\": " + KindText(e.kind);
    assert Message(e) == ParsePrefix + e.num + rest;
    assert (ParsePrefix + e.num + rest)[n..n + |e.num|] == e.num;
  }

  /** A parse failure message ends in 'x' ("syntax") or 'e' ("range"), by its kind. */
  lemma ParseMessageLast(e: Error)
    requires e.ParseFailure?
    ensures var m := Message(e);
            |m| > 0 && m[|m| - 1] == (if e.kind.ErrSyntax? then 'x' else 'e')
  {
    ParseMessageEnding(e);
  }
}
