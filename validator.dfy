/**
  The validation engine of `validator.go`: the `validate` tag grammar, the
  size and membership rules, the depth-first walk over a struct's fields and
  the ordered error list.

  Reflection is replaced by an explicit description of the value being
  validated: a `Value` is one of the reflect kinds the engine tells apart
  (`Int`, `String`, `Slice`, `Struct`) or `OtherV` for any other kind, and a
  struct is the list of its fields in declaration order, each with its name,
  whether it is exported, its `validate` tag if it has one, and its value.

  Each imperative function of the source is a method proved against a
  specification function (`ValidateField` against `FieldVerdict`,
  `ValidateStruct` against `StructErrors`, `Error` against `Join`); the
  lemmas state what those specification functions mean.
 */
module Validator {
  import opened Options
  import opened GoStrings

  // ---------------------------------------------------------------------
  // Data model
  // ---------------------------------------------------------------------

  /** A reflected value, by kind. */
  datatype Value =
    | IntV(n: Int64)               // reflect.Int
    | StrV(s: string)              // reflect.String
    | SliceV(elems: seq<Value>)    // reflect.Slice
    | StructV(fields: seq<Field>)  // reflect.Struct, fields in declaration order
    | OtherV                       // every other kind (int8, bool, map, pointer, ...)

  /** One struct field: its name, `IsExported()`, the result of
      `Tag.Lookup("validate")` and the field's value. */
  datatype Field = Field(name: string, exported: bool, tag: Option<string>, value: Value)

  /** A `ValidationError` whose `Err` is not nil: one of the two sentinels
      that can end up in the list, or a message built from the field name. */
  datatype ValidationError =
    | InvalidSyntax    // ErrInvalidValidatorSyntax
    | UnexportedField  // ErrValidateForUnexportedFields
    | Msg(text: string)

  type ValidationErrors = seq<ValidationError>

  /** The non-nil `error` results of `Validate`. */
  datatype Failure =
    | NotStruct                        // ErrNotStruct
    | Violations(errs: ValidationErrors)

  const NotStructText: string := "wrong argument given, should be a struct"
  const InvalidSyntaxText: string := "invalid validator syntax"
  const UnexportedText: string := "validation for unexported field is not allowed"

  /** Suffixes of the value-failure messages of the size rules and of `in`. */
  const SizeSuffix: string := " has incorrect size"
  const InSuffix: string := " has a value that is not present in 'validate'"

  /** `Err.Error()` of a validation error. */
  function Message(e: ValidationError): string
  {
    match e
    case InvalidSyntax => InvalidSyntaxText
    case UnexportedField => UnexportedText
    case Msg(text) => text
  }

  function Messages(errs: ValidationErrors): (ms: seq<string>)
    ensures |ms| == |errs|
    ensures forall i :: 0 <= i < |errs| ==> ms[i] == Message(errs[i])
  {
    seq(|errs|, i requires 0 <= i < |errs| => Message(errs[i]))
  }

  /** The messages of a list are those of its parts, in order. */
  lemma MessagesAppend(a: ValidationErrors, b: ValidationErrors)
    ensures Messages(a + b) == Messages(a) + Messages(b)
  {
  }

  /** The "not present" message of a field is never the syntax sentinel's
      text, so the `in` loop can tell the two apart by message. */
  lemma NotPresentIsNotSyntax(name: string)
    ensures Message(InvalidSyntax) != name + InSuffix
  {
    assert |name + InSuffix| > |InvalidSyntaxText|;
  }

  // ---------------------------------------------------------------------
  // Rule evaluators
  // ---------------------------------------------------------------------

  /** `getSize`: what the size rules compare. A string's size is the length
      of its UTF-8 encoding in bytes, which is its number of characters
      exactly when every character is ASCII. */
  function GetSize(v: Value): int
  {
    match v
    case IntV(n) => n
    case StrV(s) => Utf8Length(s)
    case _ => -1
  }

  lemma GetSizeMeaning(v: Value)
    ensures v.IntV? ==> GetSize(v) == v.n
    ensures v.StrV? ==> |v.s| <= GetSize(v) <= 4 * |v.s|
    ensures v.StrV? ==> (GetSize(v) == |v.s| <==> forall i :: 0 <= i < |v.s| ==> v.s[i] as int < 0x80)
    ensures !v.IntV? && !v.StrV? ==> GetSize(v) == -1
  {
    if v.StrV? {
      Utf8LengthBounds(v.s);
    }
  }

  /** `validateSize`: an argument that Atoi rejects is a syntax error
      whatever the size; otherwise `max`, `min` and `len` compare and any
      other rule passes. */
  function ValidateSize(sz: int, t: string, check: string, invalidText: string): (r: Option<ValidationError>)
    ensures Atoi(check).None? ==> r == Some(InvalidSyntax)
    ensures Atoi(check).Some? ==>
      var n := Atoi(check).value;
      (r.None? <==> (t == "max" ==> sz <= n) && (t == "min" ==> sz >= n) && (t == "len" ==> sz == n))
    ensures Atoi(check).Some? && r.Some? ==> r == Some(Msg(invalidText))
  {
    match Atoi(check)
    case None => Some(InvalidSyntax)
    case Some(n) =>
      var valid :=
        if t == "max" then sz <= n
        else if t == "min" then sz >= n
        else if t == "len" then sz == n
        else true;
      if valid then None else Some(Msg(invalidText))
  }

  /** The size rules on an argument written in decimal: exactly the
      comparison, with the field's message on failure. */
  lemma ValidateSizeOnLiteral(sz: int, t: string, n: Int64, invalidText: string)
    ensures ValidateSize(sz, t, Itoa(n), invalidText) ==
      if (t == "max" ==> sz <= n) && (t == "min" ==> sz >= n) && (t == "len" ==> sz == n)
      then None else Some(Msg(invalidText))
  {
    AtoiItoa(n);
  }

  /** An argument that is not an optionally signed run of digits is a
      syntax error, whatever the size and the rule. */
  lemma ValidateSizeRejectsMalformed(sz: int, t: string, check: string, invalidText: string)
    requires !IsDecimalLiteral(check)
    ensures ValidateSize(sz, t, check, invalidText) == Some(InvalidSyntax)
  {
    AtoiRejectsNonLiterals(check);
  }

  /** The candidates of an `in` rule as Atoi reads them. */
  function ParseAll(cands: seq<string>): (ps: seq<Option<Int64>>)
    ensures |ps| == |cands|
    ensures forall i :: 0 <= i < |cands| ==> ps[i] == Atoi(cands[i])
  {
    seq(|cands|, i requires 0 <= i < |cands| => Atoi(cands[i]))
  }

  /** The `in` scan of an int over its parsed candidates: stop at the first
      candidate that equals the value (pass) or does not parse (syntax
      error); a list with neither is one "not present" error. */
  function ScanInts(n: Int64, ps: seq<Option<Int64>>, errText: string): (r: Option<ValidationError>)
    ensures r.Some? ==> r.value == InvalidSyntax || r.value == Msg(errText)
  {
    if |ps| == 0 then Some(Msg(errText))
    else match ps[0]
      case None => Some(InvalidSyntax)
      case Some(m) => if m == n then None else ScanInts(n, ps[1..], errText)
  }

  /** Every candidate before position `i` parses and differs from `n`. */
  ghost predicate ScannedPast(n: Int64, ps: seq<Option<Int64>>, i: int)
    requires 0 <= i <= |ps|
  {
    forall j :: 0 <= j < i ==> ps[j].Some? && ps[j].value != n
  }

  /** The scan passes exactly when some candidate equals the value and all
      before it parse; it is a syntax error exactly when some candidate does
      not parse and all before it parse and differ; otherwise it is the
      "not present" error. Where in the list the match is does not show. */
  lemma {:induction false} ScanIntsMeaning(n: Int64, ps: seq<Option<Int64>>, errText: string)
    ensures ScanInts(n, ps, errText) == None <==>
      exists i :: 0 <= i < |ps| && ScannedPast(n, ps, i) && ps[i] == Some(n)
    ensures ScanInts(n, ps, errText) == Some(InvalidSyntax) <==>
      exists i :: 0 <= i < |ps| && ScannedPast(n, ps, i) && ps[i].None?
    ensures ScanInts(n, ps, errText) == Some(Msg(errText)) <==> ScannedPast(n, ps, |ps|)
  {
    if |ps| > 0 {
      var tail := ps[1..];
      ScanIntsMeaning(n, tail, errText);
      assert forall j :: 0 < j < |ps| ==> ps[j] == tail[j - 1];
      if ps[0].Some? && ps[0].value != n {
        forall i | 0 <= i < |tail|
          ensures ScannedPast(n, ps, i + 1) <==> ScannedPast(n, tail, i)
        {
        }
        assert ScannedPast(n, ps, |ps|) <==> ScannedPast(n, tail, |tail|);
        if ScanInts(n, ps, errText) == None {
          var i :| 0 <= i < |tail| && ScannedPast(n, tail, i) && tail[i] == Some(n);
          assert ScannedPast(n, ps, i + 1) && ps[i + 1] == Some(n);
        }
        if ScanInts(n, ps, errText) == Some(InvalidSyntax) {
          var i :| 0 <= i < |tail| && ScannedPast(n, tail, i) && tail[i].None?;
          assert ScannedPast(n, ps, i + 1) && ps[i + 1].None?;
        }
        forall i | 0 < i < |ps| && ScannedPast(n, ps, i)
          ensures ScannedPast(n, tail, i - 1) && ps[i] == tail[i - 1]
        {
        }
      } else {
        assert ScannedPast(n, ps, 0);
        assert !ScannedPast(n, ps, |ps|);
        forall i | 0 < i < |ps| ensures !ScannedPast(n, ps, i) {
          assert !(ps[0].Some? && ps[0].value != n);
        }
      }
    }
  }

  /** The `in` rule on a non-empty argument already split on commas: a
      string must equal a candidate verbatim, an int is scanned, and any
      other kind passes. */
  function InVerdict(v: Value, cands: seq<string>, errText: string): (r: Option<ValidationError>)
    ensures r.Some? ==> r.value == InvalidSyntax || r.value == Msg(errText)
    ensures !v.IntV? ==> r != Some(InvalidSyntax)
  {
    match v
    case IntV(n) => ScanInts(n, ParseAll(cands), errText)
    case StrV(s) => if s in cands then None else Some(Msg(errText))
    case _ => None
  }

  /** What `ValidateField` returns for one scalar value: `None` is the zero
      `ValidationError`. */
  function FieldVerdict(v: Value, name: string, checkT: string, checkV: string): Option<ValidationError>
  {
    if checkT == "min" || checkT == "max" || checkT == "len" then
      ValidateSize(GetSize(v), checkT, checkV, name + SizeSuffix)
    else if checkT == "in" then
      if |checkV| == 0 then Some(InvalidSyntax)
      else InVerdict(v, Split(checkV, ','), name + InSuffix)
    else None
  }

  /** The `in` rule, case by case; the int scan is characterised by
      `ScanIntsMeaning`. */
  lemma InRuleMeaning(v: Value, name: string, checkV: string)
    ensures |checkV| == 0 ==> FieldVerdict(v, name, "in", checkV) == Some(InvalidSyntax)
    ensures |checkV| > 0 && v.StrV? ==>
      FieldVerdict(v, name, "in", checkV) == if v.s in Split(checkV, ',') then None else Some(Msg(name + InSuffix))
    ensures |checkV| > 0 && v.IntV? ==>
      FieldVerdict(v, name, "in", checkV) == ScanInts(v.n, ParseAll(Split(checkV, ',')), name + InSuffix)
    ensures |checkV| > 0 && !v.IntV? && !v.StrV? ==> FieldVerdict(v, name, "in", checkV) == None
  {
    if |checkV| > 0 {
      var cands := Split(checkV, ',');
      assert FieldVerdict(v, name, "in", checkV) == InVerdict(v, cands, name + InSuffix);
    }
  }

  /** `ValidateField`: apply rule `checkT` with argument `checkV` to one
      value. The `in` loop stops, as in the source, as soon as the error it
      holds is nil or is not the field's "not present" error. */
  method ValidateField(v: Value, name: string, checkT: string, checkV: string) returns (err: Option<ValidationError>)
    ensures err == FieldVerdict(v, name, checkT, checkV)
  {
    err := None;
    if checkT == "min" || checkT == "max" || checkT == "len" {
      var size := GetSize(v);
      err := ValidateSize(size, checkT, checkV, name + SizeSuffix);
    } else if checkT == "in" {
      var errText := name + InSuffix;
      if |checkV| == 0 {
        return Some(InvalidSyntax);
      }
      var candidates := Split(checkV, ',');
      ghost var ps := ParseAll(candidates);
      NotPresentIsNotSyntax(name);
      for j := 0 to |candidates|
        invariant j == 0 ==> err == None
        invariant j > 0 ==> err == Some(Msg(errText)) && (v.IntV? || v.StrV?)
        invariant v.IntV? ==> ScanInts(v.n, ps, errText) == ScanInts(v.n, ps[j..], errText)
        invariant v.StrV? ==> v.s !in candidates[..j]
      {
        match v {
          case IntV(n) =>
            assert ps[j..][1..] == ps[j + 1..];
            err := ValidateSize(n, "len", candidates[j], errText);
          case StrV(s) =>
            if candidates[j] != s {
              err := Some(Msg(errText));
            } else {
              err := None;
            }
            assert candidates[..j + 1] == candidates[..j] + [candidates[j]];
          case _ =>
        }
        if err.None? || Message(err.value) != errText {
          break;
        }
      }
    }
  }

  // ---------------------------------------------------------------------
  // Clauses of one field
  // ---------------------------------------------------------------------

  /** The error of the first element that fails the rule, if any. */
  function ElementsVerdict(elems: seq<Value>, name: string, checkT: string, checkV: string): Option<ValidationError>
  {
    if |elems| == 0 then None
    else
      var e := FieldVerdict(elems[0], name, checkT, checkV);
      if e.Some? then e else ElementsVerdict(elems[1..], name, checkT, checkV)
  }

  /** A slice passes a rule exactly when every element does, and otherwise
      reports the error of its first failing element. */
  lemma {:induction false} ElementsVerdictMeaning(elems: seq<Value>, name: string, checkT: string, checkV: string)
    ensures ElementsVerdict(elems, name, checkT, checkV).None? <==>
      forall i :: 0 <= i < |elems| ==> FieldVerdict(elems[i], name, checkT, checkV).None?
    ensures ElementsVerdict(elems, name, checkT, checkV).Some? ==>
      exists i :: 0 <= i < |elems|
        && FieldVerdict(elems[i], name, checkT, checkV) == ElementsVerdict(elems, name, checkT, checkV)
        && forall j :: 0 <= j < i ==> FieldVerdict(elems[j], name, checkT, checkV).None?
  {
    if |elems| > 0 {
      var tail := elems[1..];
      ElementsVerdictMeaning(tail, name, checkT, checkV);
      assert forall i :: 0 < i < |elems| ==> elems[i] == tail[i - 1];
      if FieldVerdict(elems[0], name, checkT, checkV).None? && ElementsVerdict(tail, name, checkT, checkV).Some? {
        var i :| 0 <= i < |tail|
          && FieldVerdict(tail[i], name, checkT, checkV) == ElementsVerdict(tail, name, checkT, checkV)
          && forall j :: 0 <= j < i ==> FieldVerdict(tail[j], name, checkT, checkV).None?;
        assert FieldVerdict(elems[i + 1], name, checkT, checkV) == ElementsVerdict(elems, name, checkT, checkV);
      }
    }
  }

  /** One well-formed clause applied to a field's value: element by element
      for a slice, directly otherwise. */
  function ClauseVerdict(v: Value, name: string, checkT: string, checkV: string): Option<ValidationError>
  {
    if v.SliceV? then ElementsVerdict(v.elems, name, checkT, checkV)
    else FieldVerdict(v, name, checkT, checkV)
  }

  /** What one clause of a tag does to the field's error list. */
  datatype ClauseResult = Malformed | Passed | Failed(err: ValidationError)

  /** Leading spaces are trimmed and the clause is cut at its first `:`
      into rule kind and argument; a clause without `:` is malformed. */
  function EvalClause(v: Value, name: string, clause: string): (r: ClauseResult)
    ensures r.Malformed? <==> ':' !in clause
  {
    ClauseGrammar(clause);
    var tagInfo := SplitN2(TrimLeft(clause, ' '), ':');
    if |tagInfo| != 2 then Malformed
    else match ClauseVerdict(v, name, tagInfo[0], tagInfo[1])
      case None => Passed
      case Some(e) => Failed(e)
  }

  /** The clause grammar: a clause is well formed exactly when it holds a
      `:`, and then it is some spaces, a kind that neither starts with a
      space nor holds a `:`, a `:`, and the argument. */
  lemma ClauseGrammar(clause: string)
    ensures var tagInfo := SplitN2(TrimLeft(clause, ' '), ':');
      && (|tagInfo| == 2 <==> ':' in clause)
      && (|tagInfo| == 2 ==>
            && ':' !in tagInfo[0]
            && (tagInfo[0] == [] || tagInfo[0][0] != ' ')
            && exists k :: 0 <= k <= |clause|
                 && (forall i :: 0 <= i < k ==> clause[i] == ' ')
                 && clause[k..] == tagInfo[0] + ":" + tagInfo[1])
  {
    var trimmed := TrimLeft(clause, ' ');
    TrimLeftMeaning(clause, ' ');
    SplitN2Meaning(trimmed, ':');
    var k := |clause| - |trimmed|;
    assert clause == clause[..k] + trimmed;
    assert ':' in clause <==> ':' in trimmed;
    var tagInfo := SplitN2(trimmed, ':');
    if |tagInfo| == 2 {
      assert clause[k..] == tagInfo[0] + ":" + tagInfo[1];
      if tagInfo[0] != [] {
        assert tagInfo[0][0] == trimmed[0];
      } else {
        assert trimmed[0] == ':';
      }
    }
  }

  /** The other direction of the clause grammar: spaces, a kind that does
      not start with a space and holds no `:`, a `:` and any argument parse
      into exactly that kind and that argument. */
  lemma {:induction false} ClauseGrammarParses(spaces: string, kind: string, arg: string)
    requires forall i :: 0 <= i < |spaces| ==> spaces[i] == ' '
    requires ':' !in kind && (kind == [] || kind[0] != ' ')
    ensures SplitN2(TrimLeft(spaces + kind + ":" + arg, ' '), ':') == [kind, arg]
  {
    var rest := kind + ":" + arg;
    if |spaces| > 0 {
      assert (spaces + kind + ":" + arg)[1..] == spaces[1..] + kind + ":" + arg;
      ClauseGrammarParses(spaces[1..], kind, arg);
    } else {
      assert spaces + kind + ":" + arg == rest;
      assert TrimLeft(rest, ' ') == rest by {
        assert rest[0] != ' ' by { if kind == [] { assert rest[0] == ':'; } else { assert rest[0] == kind[0]; } }
      }
      SplitN2Join(kind, arg, ':');
    }
  }

  /** Every clause of a tag, evaluated on the field. */
  function EvalClauses(v: Value, name: string, clauses: seq<string>): (rs: seq<ClauseResult>)
    ensures |rs| == |clauses|
    ensures forall i :: 0 <= i < |clauses| ==> rs[i] == EvalClause(v, name, clauses[i])
  {
    seq(|clauses|, i requires 0 <= i < |clauses| => EvalClause(v, name, clauses[i]))
  }

  /** The errors a field's clause results append, in order: a malformed
      clause appends a syntax error and evaluation goes on; the first
      failing clause appends its error and ends the field. */
  function CombineClauses(rs: seq<ClauseResult>): (errs: ValidationErrors)
    ensures |errs| <= |rs|
  {
    if |rs| == 0 then []
    else
      match rs[0]
      case Malformed => [InvalidSyntax] + CombineClauses(rs[1..])
      case Passed => CombineClauses(rs[1..])
      case Failed(e) => [e]
  }

  /** The errors of one field's clauses. */
  function ClausesErrors(v: Value, name: string, clauses: seq<string>): ValidationErrors
  {
    CombineClauses(EvalClauses(v, name, clauses))
  }

  lemma CombineClausesStep(rs: seq<ClauseResult>, k: nat)
    requires k < |rs|
    ensures CombineClauses(rs[k..]) ==
      match rs[k]
      case Malformed => [InvalidSyntax] + CombineClauses(rs[k + 1..])
      case Passed => CombineClauses(rs[k + 1..])
      case Failed(e) => [e]
  {
    assert rs[k..][0] == rs[k] && rs[k..][1..] == rs[k + 1..];
  }

  /** Clauses of which none fails contribute only syntax errors and leave
      the rest of the list to the clauses after them. */
  lemma {:induction false} CombineClausesAppend(a: seq<ClauseResult>, b: seq<ClauseResult>)
    requires forall i :: 0 <= i < |a| ==> !a[i].Failed?
    ensures CombineClauses(a + b) == CombineClauses(a) + CombineClauses(b)
    ensures forall i :: 0 <= i < |CombineClauses(a)| ==> CombineClauses(a)[i] == InvalidSyntax
  {
    if |a| > 0 {
      assert (a + b)[0] == a[0];
      assert (a + b)[1..] == a[1..] + b;
      CombineClausesAppend(a[1..], b);
    } else {
      assert a + b == b;
    }
  }

  /** Short-circuit: once a clause fails, the field's errors are the syntax
      errors of the malformed clauses before it and that clause's error,
      whatever clauses follow. */
  lemma ClausesShortCircuit(before: seq<ClauseResult>, e: ValidationError, after: seq<ClauseResult>)
    requires forall i :: 0 <= i < |before| ==> !before[i].Failed?
    ensures CombineClauses(before + [Failed(e)] + after) == CombineClauses(before) + [e]
    ensures forall i :: 0 <= i < |CombineClauses(before)| ==> CombineClauses(before)[i] == InvalidSyntax
  {
    assert before + [Failed(e)] + after == before + ([Failed(e)] + after);
    CombineClausesAppend(before, [Failed(e)] + after);
    assert ([Failed(e)] + after)[0] == Failed(e);
  }

  /** The shape of one field's errors: at most one per clause, all of them
      syntax errors except possibly the last, at most one when every clause
      is well formed, and none exactly when every clause passes. */
  lemma {:induction false} CombineClausesShape(rs: seq<ClauseResult>)
    ensures |CombineClauses(rs)| <= |rs|
    ensures forall i :: 0 <= i < |CombineClauses(rs)| - 1 ==> CombineClauses(rs)[i] == InvalidSyntax
    ensures (forall i :: 0 <= i < |rs| ==> !rs[i].Malformed?) ==> |CombineClauses(rs)| <= 1
    ensures CombineClauses(rs) == [] <==> forall i :: 0 <= i < |rs| ==> rs[i] == Passed
  {
    if |rs| > 0 {
      var tail := rs[1..];
      CombineClausesShape(tail);
      assert forall i :: 0 < i < |rs| ==> rs[i] == tail[i - 1];
      var rest := CombineClauses(tail);
      if rs[0].Malformed? {
        assert CombineClauses(rs) == [InvalidSyntax] + rest;
        assert forall i :: 0 < i < |rest| + 1 ==> ([InvalidSyntax] + rest)[i] == rest[i - 1];
      }
    }
  }

  // ---------------------------------------------------------------------
  // Traversal
  // ---------------------------------------------------------------------

  /** What one field contributes to its struct's error list. */
  function FieldErrors(f: Field): ValidationErrors
    decreases f
  {
    if f.value.StructV? && f.exported then StructErrors(f.value.fields)
    else if f.tag.None? then []
    else if !f.exported then [UnexportedField]
    else ClausesErrors(f.value, f.name, Split(f.tag.value, ';'))
  }

  /** The errors of a struct: its fields' contributions in declaration
      order. */
  function StructErrors(fields: seq<Field>): ValidationErrors
    decreases fields
  {
    if |fields| == 0 then [] else FieldErrors(fields[0]) + StructErrors(fields[1..])
  }

  lemma {:induction false} StructErrorsAppend(a: seq<Field>, b: seq<Field>)
    ensures StructErrors(a + b) == StructErrors(a) + StructErrors(b)
  {
    if |a| > 0 {
      assert (a + b)[0] == a[0];
      assert (a + b)[1..] == a[1..] + b;
      StructErrorsAppend(a[1..], b);
    } else {
      assert a + b == b;
    }
  }

  lemma StructErrorsSnoc(fields: seq<Field>, i: nat)
    requires i < |fields|
    ensures StructErrors(fields[..i + 1]) == StructErrors(fields[..i]) + FieldErrors(fields[i])
  {
    assert fields[..i + 1] == fields[..i] + [fields[i]];
    StructErrorsAppend(fields[..i], [fields[i]]);
  }

  /** Order preservation: a field's errors sit between those of the fields
      before and after it. An exported struct field splices in its nested
      errors, tagged or not; an untagged field of any other type adds
      nothing; a tagged unexported field adds exactly one error. */
  lemma StructErrorsSplice(before: seq<Field>, f: Field, after: seq<Field>)
    ensures StructErrors(before + [f] + after) == StructErrors(before) + FieldErrors(f) + StructErrors(after)
    ensures f.exported && f.value.StructV? ==> FieldErrors(f) == StructErrors(f.value.fields)
    ensures !(f.exported && f.value.StructV?) && f.tag.None? ==> FieldErrors(f) == []
    ensures !f.exported && f.tag.Some? ==> FieldErrors(f) == [UnexportedField]
  {
    StructErrorsAppend(before + [f], after);
    StructErrorsAppend(before, [f]);
    assert StructErrors([f]) == FieldErrors(f) + StructErrors([]);
  }

  /** A field that, looking through exported struct fields, carries no
      `validate` tag anywhere. */
  ghost predicate UntaggedField(f: Field)
    decreases f
  {
    if f.exported && f.value.StructV? then UntaggedFields(f.value.fields) else f.tag.None?
  }

  ghost predicate UntaggedFields(fields: seq<Field>)
    decreases fields
  {
    forall i :: 0 <= i < |fields| ==> UntaggedField(fields[i])
  }

  /** A struct without tags, however deeply nested, has no errors. */
  lemma {:induction false} UntaggedStructHasNoErrors(fields: seq<Field>)
    requires UntaggedFields(fields)
    ensures StructErrors(fields) == []
    decreases fields
  {
    if |fields| > 0 {
      var f := fields[0];
      if f.exported && f.value.StructV? {
        UntaggedStructHasNoErrors(f.value.fields);
      }
      assert UntaggedFields(fields[1..]) by {
        assert forall i :: 0 < i < |fields| ==> fields[i] == fields[1..][i - 1];
      }
      UntaggedStructHasNoErrors(fields[1..]);
    }
  }

  /** `ValidateStruct`: walk the fields in order, appending to the error
      list. The source's "not a struct" error cannot happen (the walk only
      enters struct values), so it is a precondition here. */
  method ValidateStruct(s: Value) returns (valErrs: ValidationErrors)
    requires s.StructV?
    ensures valErrs == StructErrors(s.fields)
    decreases s
  {
    var fields := s.fields;
    valErrs := [];
    for i := 0 to |fields|
      invariant valErrs == StructErrors(fields[..i])
    {
      var field := fields[i];
      StructErrorsSnoc(fields, i);
      // An exported struct field: its nested errors, whatever its tag
      if field.value.StructV? && field.exported {
        var nested := ValidateStruct(field.value);
        valErrs := valErrs + nested;
        continue;
      }
      if field.tag.None? {
        continue;
      }
      if !field.exported {
        valErrs := valErrs + [UnexportedField];
        continue;
      }
      var tagErrs := ValidateTag(field.value, field.name, field.tag.value);
      valErrs := valErrs + tagErrs;
    }
    assert fields[..|fields|] == fields;
  }

  /** The clause loop of `ValidateStruct` for one exported, tagged field
      (validator.go:101-126): the errors it appends to the struct's list. */
  method ValidateTag(v: Value, name: string, fullTag: string) returns (tagErrs: ValidationErrors)
    ensures tagErrs == ClausesErrors(v, name, Split(fullTag, ';'))
  {
    var splitTag := Split(fullTag, ';');
    ghost var results := EvalClauses(v, name, splitTag);
    tagErrs := [];
    for k := 0 to |splitTag|
      invariant tagErrs + CombineClauses(results[k..]) == CombineClauses(results)
    {
      CombineClausesStep(results, k);
      var tagInfo := SplitN2(TrimLeft(splitTag[k], ' '), ':');
      if |tagInfo| != 2 {
        tagErrs := tagErrs + [InvalidSyntax];
        continue;
      }
      var err := ValidateClause(v, name, tagInfo[0], tagInfo[1]);
      if err.Some? {
        tagErrs := tagErrs + [err.value];
        break;
      }
    }
  }

  /** One well-formed clause on a field's value (validator.go:109-121): a
      slice is checked element by element up to the first invalid one. */
  method ValidateClause(v: Value, name: string, checkT: string, checkV: string) returns (err: Option<ValidationError>)
    ensures err == ClauseVerdict(v, name, checkT, checkV)
  {
    err := None;
    if v.SliceV? {
      for j := 0 to |v.elems|
        invariant err.None?
        invariant ElementsVerdict(v.elems, name, checkT, checkV) == ElementsVerdict(v.elems[j..], name, checkT, checkV)
      {
        assert v.elems[j..][1..] == v.elems[j + 1..];
        err := ValidateField(v.elems[j], name, checkT, checkV);
        if err.Some? {
          break;
        }
      }
    } else {
      err := ValidateField(v, name, checkT, checkV);
    }
  }

  /** `Validate`: a non-struct is `ErrNotStruct`; a struct is valid (nil)
      exactly when its error list is empty, and an empty list is never
      returned as an error. */
  method Validate(s: Value) returns (r: Option<Failure>)
    ensures !s.StructV? ==> r == Some(NotStruct)
    ensures s.StructV? ==> (r == None <==> StructErrors(s.fields) == [])
    ensures s.StructV? && r != None ==> r == Some(Violations(StructErrors(s.fields)))
    ensures r != Some(Violations([]))
  {
    if !s.StructV? {
      return Some(NotStruct);
    }
    var valErrs := ValidateStruct(s);
    if |valErrs| == 0 {
      return None;
    }
    return Some(Violations(valErrs));
  }

  // ---------------------------------------------------------------------
  // Error model
  // ---------------------------------------------------------------------

  /** `ValidationErrors.Error`: fill an array with the messages in order,
      then join them with "; ". */
  method Error(v: ValidationErrors) returns (text: string)
    ensures text == Join(Messages(v), "; ")
  {
    var s := new string[|v|](_ => "");
    for i := 0 to |v|
      invariant forall k :: 0 <= k < i ==> s[k] == Message(v[k])
      invariant forall k :: i <= k < |v| ==> s[k] == ""
    {
      s[i] := s[i] + Message(v[i]);
    }
    assert s[..] == Messages(v);
    text := Join(s[..], "; ");
  }

  /** The joined text of an error list: empty for no errors, the message
      itself for one, and the two texts around one "; " for a list split
      in two non-empty parts. */
  lemma ErrorTextShape(a: ValidationErrors, b: ValidationErrors)
    ensures Join(Messages([]), "; ") == ""
    ensures |a| == 1 ==> Join(Messages(a), "; ") == Message(a[0])
    ensures |a| >= 1 && |b| >= 1 ==>
      Join(Messages(a + b), "; ") == Join(Messages(a), "; ") + "; " + Join(Messages(b), "; ")
  {
    MessagesAppend(a, b);
    if |a| >= 1 && |b| >= 1 {
      JoinAppend(Messages(a), Messages(b), "; ");
    }
  }
}
