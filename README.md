# govalid validator, modelled in Dafny

`govalid` checks a Go struct against rules written in each field's
`validate` struct tag. A tag is a `;`-separated list of clauses such as
`min:3; max:20; in:11,12,13`. Each clause names a rule kind (`min`, `max`,
`len`, `in`) and, after the first `:`, its argument.

`Validate` rejects any value that is not a struct. Otherwise it walks the
struct's fields in declaration order and collects a list of validation errors:

- an exported field of struct type is walked recursively;
- an untagged field is skipped;
- a tagged unexported field is one error;
- every other tagged field has its clauses applied in order, up to the first
  one that fails.

The size rules compare an int's value or a string's byte length with the
decimal argument. `in` asks whether the value is one of the comma-separated
candidates. A slice field has each clause applied to its elements, up to the
first element that fails. `ValidationErrors.Error` joins the messages with
`"; "`.

The project has three modules:

- `Options` (`options.dfy`): the `Option` datatype.
- `GoStrings` (`go_strings.dfy`): the library routines the engine calls.
  These are `strings.Split`, `strings.Join`, `strings.TrimLeft`,
  `strings.SplitN(…, 2)`, `strconv.Atoi` and, as its inverse, `strconv.Itoa`.
  Also here is the UTF-8 byte length that Go's `len` gives for a string.
  Each routine comes with the lemmas that pin it down: `Split` and `Join` are
  inverses, `SplitN2` undoes a join at its first separator, and `Atoi` parses
  back what `Itoa` prints over the whole 64-bit range.
- `Validator` (`validator.dfy`): the engine itself.
  - Reflection is replaced by a `Value` datatype with one constructor per
    kind the engine tells apart: `IntV`, `StrV`, `SliceV`, `StructV`, and
    `OtherV` for everything else.
    A struct is its list of `Field`s: name, exported or not, the `validate`
    tag if present, and value.
  - The loops of the source stay loops. `ValidateStruct`, its clause loop
    `ValidateTag`, its slice loop `ValidateClause`, `ValidateField` (with the
    `in` candidate loop) and `Error` (filling an array) are methods.
  - Each method is proved equal to a specification function:
    `StructErrors`, `ClausesErrors`, `ClauseVerdict`, `FieldVerdict` and
    `Join ∘ Messages`. Lemmas then state what those functions mean.

Behaviours of validator.go that the model follows exactly:

- A clause without `:` appends a syntax error, and the next clause is still
  evaluated (validator.go:105-107).
- `in` on a kind other than int or string leaves the error empty, so the
  clause passes (validator.go:56-69).
- Only leading space characters are trimmed from a clause
  (validator.go:104).
- A clause of any rule kind other than `min`, `max`, `len` and `in` passes
  (validator.go:47-71, 150-157).

## Model

| member | source | states |
|---|---|---|
| GoStrings.Split | validator.go:102 | `strings.Split` always returns at least one piece. |
| GoStrings.SplitPieces | validator.go:102 | No piece of a split contains the separator. |
| GoStrings.JoinSplit | validator.go:102 | Joining the pieces of a split with the separator gives back the original tag. |
| GoStrings.SplitJoin | validator.go:102 | Splitting a join of separator-free pieces gives back exactly those pieces. |
| GoStrings.Join | validator.go:25 | `strings.Join(parts, sep)`: the pieces with one separator between neighbours; `JoinSplit`, `SplitJoin` and `JoinAppend` pin it down. |
| GoStrings.JoinAppend | validator.go:25 | The join of two non-empty lists is their two joins with one separator between them. |
| GoStrings.TrimLeft | validator.go:104 | Trimming never lengthens a clause. |
| GoStrings.TrimLeftMeaning | validator.go:104 | `TrimLeft(clause, " ")` keeps a suffix that does not start with a space, and drops only spaces. |
| GoStrings.IndexOf | validator.go:104 | The returned position holds the first occurrence of the separator. |
| GoStrings.SplitN2 | validator.go:104 | `SplitN(s, ":", 2)` gives one or two parts. |
| GoStrings.SplitN2Meaning | validator.go:104 | One part exactly when there is no `:`, and then it is the whole text. Two parts are the text before the first `:` (which holds none) and the text after it. |
| GoStrings.SplitN2Join | validator.go:104 | Splitting `x + ":" + y` with a `:`-free `x` gives exactly `[x, y]`. |
| GoStrings.Atoi | validator.go:146 | `strconv.Atoi` succeeds only on an optionally signed run of one or more digits. |
| GoStrings.AtoiOfLiteral | validator.go:146-149 | Such a literal parses to its signed digit value exactly when that value lies in the 64-bit range, and is an error otherwise. |
| GoStrings.AtoiRejectsNonLiterals | validator.go:146-149 | Text that is not an optionally signed run of one or more digits is an Atoi error. |
| GoStrings.AtoiItoa | validator.go:146 | Every 64-bit integer's decimal spelling is a literal, and Atoi parses it back to the same number. |
| GoStrings.NatToDecimal | validator.go:146 | The decimal spelling of a natural number is a non-empty run of digits. |
| GoStrings.DecimalValueOfNatToDecimal | validator.go:146 | Reading the digits of a number's decimal spelling gives the number. |
| GoStrings.Utf8Width | validator.go:137 | A character takes 1 to 4 bytes, and exactly 1 when it is ASCII. |
| GoStrings.Utf8LengthBounds | validator.go:137 | A string's byte length lies between its character count and four times that. It equals the character count exactly when every character is ASCII. |
| GoStrings.Utf8LengthAppend | validator.go:137 | Byte length adds up over concatenation. |
| Validator.MessagesAppend | validator.go:21-24 | The messages of a list are the messages of its parts, in order. |
| Validator.NotPresentIsNotSyntax | validator.go:51-67 | A field's "not present" text is never the syntax sentinel's text, so the `in` loop's message test tells them apart. |
| Validator.GetSize | validator.go:132-140 | `getSize`: an int's value, a string's UTF-8 byte length, -1 for any other kind; `GetSizeMeaning` states it. |
| Validator.GetSizeMeaning | validator.go:131-140 | An int's size is its value, a string's size is its UTF-8 byte length (bounded as above), and any other kind has size -1. |
| Validator.ValidateSize | validator.go:144-164 | An Atoi error gives the syntax error. Otherwise the result is nil exactly when `max` (sz ≤ n), `min` (sz ≥ n) and `len` (sz = n) each hold where they apply, and any failure is the given message. |
| Validator.ValidateSizeOnLiteral | validator.go:146-163 | With a decimal argument, the size rules are exactly the comparison. |
| Validator.ValidateSizeRejectsMalformed | validator.go:146-149 | A malformed argument is a syntax error whatever the size and the rule. |
| Validator.ScanInts | validator.go:55-69 | The int `in` scan fails only with the syntax error or the field's "not present" error. |
| Validator.ScanIntsMeaning | validator.go:56-69 | For an int, `in` passes exactly when some candidate equals it and every earlier one parses. It is a syntax error exactly when an unparsable candidate comes first with every earlier one parsing and differing. Otherwise it is one "not present" error. |
| Validator.InVerdict | validator.go:55-70 | `in` on a split argument fails only with the syntax error or the "not present" error, and a non-int never with the syntax error. |
| Validator.InRuleMeaning | validator.go:50-70 | An empty argument is a syntax error. A string passes exactly when it equals a candidate verbatim. An int is the candidate scan `ScanInts` over the Atoi readings of the candidates. Any other kind passes. |
| Validator.ValidateField | validator.go:45-73 | The method, including its early-exit candidate loop, returns exactly `FieldVerdict`. |
| Validator.ElementsVerdict | validator.go:113-118 | The slice loop: the verdict of the first failing element, if any; `ElementsVerdictMeaning` states it. |
| Validator.ElementsVerdictMeaning | validator.go:111-118 | A slice passes a rule exactly when every element does (so an empty slice passes). Otherwise it reports the error of the first failing element. |
| Validator.EvalClause | validator.go:104-121 | A clause is malformed exactly when it holds no `:`. A well-formed clause's result is, by definition, the rule's verdict on the parsed kind and argument. |
| Validator.ClauseGrammar | validator.go:102-108 | A clause is well formed exactly when it contains `:`. Its kind then holds no `:` and does not start with a space, and the clause is spaces, kind, `:` and argument. |
| Validator.ClauseGrammarParses | validator.go:104-108 | Conversely, spaces, such a kind, `:` and any argument parse into exactly that kind and argument. |
| Validator.CombineClauses | validator.go:103-126 | The clause loop's appends: never more errors than clauses. |
| Validator.CombineClausesAppend | validator.go:103-126 | Clauses none of which fails add only syntax errors, and leave the rest of the list to the clauses after them. |
| Validator.ClausesShortCircuit | validator.go:122-125 | After the first failing clause, the later clauses do not matter. The field's errors are the syntax errors of the malformed clauses before it, then that clause's error. |
| Validator.CombineClausesShape | validator.go:103-126 | A field has at most one error per clause, all of them syntax errors except possibly the last. It has at most one error when every clause is well formed, and none exactly when every clause passes. |
| Validator.FieldErrors | validator.go:84-126 | One field's contribution: nested errors for an exported struct, nothing untagged, `UnexportedField` for a tagged unexported field, and its clauses' errors otherwise; `StructErrorsSplice` states it. |
| Validator.StructErrors | validator.go:81-127 | The fields' contributions concatenated in declaration order; `StructErrorsAppend` and `StructErrorsSplice` state it. |
| Validator.StructErrorsAppend | validator.go:81-127 | The errors of a field list are the errors of its parts, in order. |
| Validator.StructErrorsSnoc | validator.go:81-127 | Each loop step appends exactly the current field's errors. |
| Validator.StructErrorsSplice | validator.go:84-100 | A field's errors sit at its own position. An exported struct field splices in its nested errors, tagged or not. An untagged non-struct field adds nothing. A tagged unexported field adds exactly one `UnexportedField`. |
| Validator.UntaggedStructHasNoErrors | validator.go:84-96 | A struct with no tag anywhere, looking through exported struct fields, has no errors. |
| Validator.ValidateStruct | validator.go:76-129 | The field loop returns exactly `StructErrors` of the struct. |
| Validator.ValidateTag | validator.go:101-126 | The clause loop of one field returns exactly that field's `ClausesErrors`. |
| Validator.ValidateClause | validator.go:109-121 | One clause on the field's value, element by element for a slice, returns exactly `ClauseVerdict`. |
| Validator.Validate | validator.go:28-41 | A non-struct gives `ErrNotStruct`. A struct gives nil exactly when its error list is empty, and otherwise that list. An empty list is never returned as an error. |
| Validator.Error | validator.go:20-26 | The text is the messages, in list order, joined with `"; "`. |
| Validator.ErrorTextShape | validator.go:20-26 | The empty list gives "", one error gives its message, and a list cut in two gives the two texts around one `"; "`. |

## Left out

- Go reflection (`reflect.ValueOf`, `Kind`, `NumField`, `Field(i)`, `Tag.Lookup`, `IsExported`) is replaced by the `Value` and `Field` datatypes. The only kinds told apart are `reflect.Int`, `reflect.String`, `reflect.Slice` and `reflect.Struct`; every other kind is `OtherV`, which the engine treats alike.
- `int` is the 64-bit Go `int`. A 32-bit platform is not modelled.
- Error wrapping and identity (`github.com/pkg/errors`, `errors.Is`, `errors.As`, stack traces) are left out. The sentinels are datatype constructors; a value failure is `Msg(name + suffix)`; a zero `ValidationError` (nil `Err`) is `None`.
- ValidateStruct: the "Validating value is not struct" branch (validator.go:77-79) is a precondition, and so is the error propagation that only it could trigger (validator.go:85-88, 33-36). The walk only ever enters struct values.
- Strings are sequences of Unicode scalar values. A Go string holding invalid UTF-8 cannot be written down, and for the others `len` is computed as the byte length of their UTF-8 encoding.
- Cyclic or pointer-linked values do not arise: the engine never dereferences pointers, so a value is a finite tree.
- validator_test.go is test-harness code and is not modelled. Its concrete cases are not restated as lemma instances; the general lemmas above state the behaviours those cases exercise (size, `in`, slices, short-circuit, nesting, unexported fields, error text).
