/** Discovery capability lists: response types compare as name sets, policies as sets of canonical values. */
module CapabilityPolicy {
  import opened Text
  import opened Sorting

  // ----- Canonical values -----

  /** A capability field; grant types also admit the URI references among the values at hand. */
  datatype Field = ResponseTypes | GrantTypes(uriReferences: set<string>) | CodeChallengeMethods

  predicate AlphaNumeric(c: char) { 'A' <= c <= 'Z' || 'a' <= c <= 'z' || '0' <= c <= '9' }

  predicate ValidResponseName(value: string)
  {
    value != "" && forall i :: 0 <= i < |value| ==> AlphaNumeric(value[i]) || value[i] == '_'
  }

  predicate ValidGrantName(value: string)
  {
    && value != ""
    && forall i :: 0 <= i < |value| ==>
      AlphaNumeric(value[i]) || value[i] == '.' || value[i] == '_' || value[i] == '-'
  }

  predicate ValidCapability(value: string)
  {
    && value != "" && Trim(value) == value
    && forall i :: 0 <= i < |value| ==>
      var n := value[i] as int; n == 0x21 || 0x23 <= n <= 0x5b || 0x5d <= n <= 0x7e
  }

  predicate AllResponseNames(names: seq<string>)
  {
    forall i :: 0 <= i < |names| ==> ValidResponseName(names[i])
  }

  predicate AdjacentRepeat(names: seq<string>)
  {
    exists i :: 0 <= i < |names| - 1 && names[i] == names[i + 1]
  }

  /** Split at spaces, check the names, sort, refuse neighbours that agree, join. */
  function CanonicalResponseType(value: string): (r: Option<string>)
  {
    var names := Split(value, ' ');
    if !AllResponseNames(names) then None
    else
      var sorted := Sort(names);
      if AdjacentRepeat(sorted) then None else Some(Join(sorted, [' ']))
  }

  function Canonical(field: Field, value: string): (r: Option<string>)
  {
    match field
    case ResponseTypes => CanonicalResponseType(value)
    case GrantTypes(uris) =>
      if ValidGrantName(value) || (value != "" && value in uris) then Some(value) else None
    case CodeChallengeMethods => if ValidCapability(value) then Some(value) else None
  }

  predicate IsAlphanumeric(n: int) { 48 <= n <= 57 || 65 <= n <= 90 || 97 <= n <= 122 }

  /** Which values each field admits, and that only response types are respelled. */
  lemma CanonicalExactly(field: Field, value: string)
    ensures field.GrantTypes? ==>
      && (Canonical(field, value).Some? <==>
            && value != ""
            && (value in field.uriReferences || forall i :: 0 <= i < |value| ==>
                  IsAlphanumeric(value[i] as int) || value[i] in {'-', '.', '_'}))
      && (Canonical(field, value).Some? ==> Canonical(field, value).value == value)
    ensures field.CodeChallengeMethods? ==>
      && (Canonical(field, value).Some? <==>
            && value != ""
            && forall i :: 0 <= i < |value| ==> 0x21 <= value[i] as int <= 0x7E && value[i] != '"' && value[i] != '\\')
      && (Canonical(field, value).Some? ==> Canonical(field, value).value == value)
    ensures field.ResponseTypes? ==> Canonical(field, value) == CanonicalResponseType(value)
    ensures ValidResponseName(value) <==>
      value != "" && forall i :: 0 <= i < |value| ==> IsAlphanumeric(value[i] as int) || value[i] == '_'
  {
    TrimmedExactly(value);
  }

  /** On sorted lists, looking at neighbours finds every repetition. */
  lemma AdjacentRepeatIffRepeat(names: seq<string>)
    requires Sorted(names)
    ensures AdjacentRepeat(names) <==> !Distinct(names)
  {
    forall i, j | 0 <= i < j < |names| && names[i] == names[j] ensures AdjacentRepeat(names) {
      LeqReflexive(names[j]);
      assert Leq(names[i], names[i + 1]) && Leq(names[i + 1], names[j]);
      LeqAntisymmetric(names[i], names[i + 1]);
    }
  }

  lemma MultisetRepeat(s: seq<string>, t: seq<string>)
    requires multiset(s) == multiset(t) && !Distinct(s)
    ensures !Distinct(t)
  {
    var i, j :| 0 <= i < j < |s| && s[i] == s[j];
    var x := s[i];
    assert s == s[..i] + [x] + s[i + 1..j] + [x] + s[j + 1..];
    assert multiset(s)[x] >= 2;
    if Distinct(t) { AtMostOnce(t, x); }
  }

  lemma {:induction false} AtMostOnce(t: seq<string>, x: string)
    requires Distinct(t)
    ensures multiset(t)[x] <= 1
  {
    if t != [] {
      DistinctTail(t);
      AtMostOnce(t[1..], x);
      assert t == [t[0]] + t[1..];
      if t[0] == x { assert x !in multiset(t[1..]); }
    }
  }

  /** A response type is refused exactly for a malformed or repeated name. */
  lemma ResponseTypeAccepted(value: string)
    ensures CanonicalResponseType(value).Some?
      <==> AllResponseNames(Split(value, ' ')) && Distinct(Split(value, ' '))
  {
    var names := Split(value, ' ');
    SortFacts(names);
    AdjacentRepeatIffRepeat(Sort(names));
    if !Distinct(names) { MultisetRepeat(names, Sort(names)); }
    if Distinct(names) { SortDistinct(names); }
  }

  /** Joining then splitting at the separator returns the sorted names. */
  lemma CanonicalNames(value: string)
    requires CanonicalResponseType(value).Some?
    ensures Split(CanonicalResponseType(value).value, ' ') == Sort(Split(value, ' '))
  {
    var names := Split(value, ' ');
    SortFacts(names);
    var sorted := Sort(names);
    forall i | 0 <= i < |sorted| ensures ' ' !in sorted[i] {
      assert sorted[i] in sorted;
      var j :| 0 <= j < |names| && names[j] == sorted[i];
      assert ValidResponseName(names[j]);
    }
    SplitJoin(sorted, ' ');
  }

  /** Two response types have the same canonical form exactly when they list the same names. */
  lemma CanonicalDecidesNames(x: string, y: string)
    requires CanonicalResponseType(x).Some? && CanonicalResponseType(y).Some?
    ensures CanonicalResponseType(x) == CanonicalResponseType(y)
      <==> (forall n :: n in Split(x, ' ') <==> n in Split(y, ' '))
  {
    ResponseTypeAccepted(x);
    ResponseTypeAccepted(y);
    CanonicalNames(x);
    CanonicalNames(y);
    SortIsCanonical(Split(x, ' '), Split(y, ' '));
  }

  // ----- Lists of values -----

  /** The canonical values of a list. */
  ghost function Canon(field: Field, values: seq<string>): (s: set<string>)
  {
    set v | v in values && Canonical(field, v).Some? :: Canonical(field, v).value
  }

  ghost predicate AllValid(field: Field, values: seq<string>)
  {
    forall i :: 0 <= i < |values| ==> Canonical(field, values[i]).Some?
  }

  /** Every value is valid and none repeats another, however spelled. */
  ghost predicate Clean(field: Field, values: seq<string>)
  {
    && AllValid(field, values)
    && forall i, j :: 0 <= i < j < |values| ==> Canonical(field, values[i]) != Canonical(field, values[j])
  }

  ghost predicate Covered(field: Field, values: seq<string>, known: set<string>)
  {
    AllValid(field, values) && Canon(field, values) <= known
  }

  /** Value `i` is the first outside `known`. */
  ghost predicate FirstMissing(field: Field, values: seq<string>, i: nat, known: set<string>)
  {
    && i < |values| && Covered(field, values[..i], known)
    && Canonical(field, values[i]).Some? && Canonical(field, values[i]).value !in known
  }

  ghost predicate FirstMissingIs(field: Field, values: seq<string>, value: string, known: set<string>)
  {
    exists i: nat :: FirstMissing(field, values, i, known) && value == values[i]
  }

  lemma CanonHas(field: Field, values: seq<string>, i: nat)
    requires i < |values| && Canonical(field, values[i]).Some?
    ensures Canonical(field, values[i]).value in Canon(field, values)
  {
    assert values[i] in values;
  }

  lemma CanonAppend(field: Field, values: seq<string>, i: nat)
    requires i < |values| && Canonical(field, values[i]).Some?
    ensures Canon(field, values[..i + 1]) == Canon(field, values[..i]) + {Canonical(field, values[i]).value}
  {
    Around(values, i);
  }

  lemma RepeatInCanon(field: Field, values: seq<string>, i: nat)
    requires i < |values| && Canonical(field, values[i]).Some?
    ensures Canonical(field, values[i]).value in Canon(field, values[..i])
      <==> exists j :: 0 <= j < i && Canonical(field, values[j]) == Canonical(field, values[i])
  {
    var c := Canonical(field, values[i]).value;
    if c in Canon(field, values[..i]) {
      var v :| v in values[..i] && Canonical(field, v) == Some(c);
      var j :| 0 <= j < i && values[..i][j] == v;
      assert values[j] == v;
    }
    if j :| 0 <= j < i && Canonical(field, values[j]) == Canonical(field, values[i]) {
      assert values[..i][j] == values[j];
      CanonHas(field, values[..i], j);
    }
  }

  datatype Flaw = Invalid(index: nat) | Repeated(index: nat)

  /** What is wrong first with a list. */
  ghost predicate FirstFlaw(field: Field, values: seq<string>, flaw: Flaw)
  {
    && flaw.index < |values| && Clean(field, values[..flaw.index])
    && match flaw
       case Invalid(i) => Canonical(field, values[i]).None?
       case Repeated(i) =>
         Canonical(field, values[i]).Some? && Canonical(field, values[i]).value in Canon(field, values[..i])
  }

  lemma FlawMeansUnclean(field: Field, values: seq<string>, flaw: Flaw)
    requires FirstFlaw(field, values, flaw)
    ensures !Clean(field, values)
  {
    if flaw.Repeated? { RepeatInCanon(field, values, flaw.index); }
  }

  lemma CleanAppend(field: Field, values: seq<string>, i: nat)
    requires i < |values| && Clean(field, values[..i]) && Canonical(field, values[i]).Some?
    requires Canonical(field, values[i]).value !in Canon(field, values[..i])
    ensures Clean(field, values[..i + 1])
  {
    RepeatInCanon(field, values, i);
    var front, longer := values[..i], values[..i + 1];
    assert forall j :: 0 <= j < i ==> longer[j] == front[j] == values[j];
  }

  /** The scan with a set of canonical values already seen. */
  method Scan(field: Field, values: seq<string>) returns (seen: set<string>, flaw: Option<Flaw>)
    ensures flaw.None? <==> Clean(field, values)
    ensures flaw.None? ==> seen == Canon(field, values)
    ensures flaw.Some? ==> FirstFlaw(field, values, flaw.value)
  {
    seen := {};
    for i := 0 to |values|
      invariant seen == Canon(field, values[..i]) && Clean(field, values[..i])
    {
      var canonical := Canonical(field, values[i]);
      if canonical.None? {
        FlawMeansUnclean(field, values, Invalid(i));
        return seen, Some(Invalid(i));
      }
      if canonical.value in seen {
        FlawMeansUnclean(field, values, Repeated(i));
        return seen, Some(Repeated(i));
      }
      CleanAppend(field, values, i);
      CanonAppend(field, values, i);
      seen := seen + {canonical.value};
    }
    assert values[..|values|] == values;
    flaw := None;
  }

  /** The first value whose canonical form is not known, among valid values. */
  method Find(field: Field, values: seq<string>, known: set<string>) returns (missing: Option<nat>)
    requires AllValid(field, values)
    ensures missing.None? <==> Canon(field, values) <= known
    ensures missing.Some? ==> FirstMissing(field, values, missing.value, known)
  {
    for i := 0 to |values|
      invariant Canon(field, values[..i]) <= known
    {
      CanonHas(field, values, i);
      var canonical := Canonical(field, values[i]);
      if canonical.value !in known {
        return Some(i);
      }
      CanonAppend(field, values, i);
    }
    assert values[..|values|] == values;
    missing := None;
  }

  // ----- Requirements and metadata -----

  datatype Error =
    | InvalidRequirements
    | RequiredCapabilityExcludedByExactPolicy(value: string)
    | MissingCapabilityField
    | InvalidCapabilityValue(index: nat)
    | DuplicateCapabilityValue(index: nat)
    | MissingRequiredCapability(value: string)
    | UnexpectedCapability(value: string)

  /** A requirement that metadata could meet. */
  ghost predicate Satisfiable(field: Field, required: seq<string>, exact: Option<seq<string>>)
  {
    && Clean(field, required)
    && (exact.Some? ==> Clean(field, exact.value) && Canon(field, required) <= Canon(field, exact.value))
  }

  /** Why a requirement is refused: a flawed list, or the first value its own exact set leaves out. */
  ghost predicate ExplainsRequirement(error: Error, field: Field, required: seq<string>, exact: Option<seq<string>>)
  {
    if !Clean(field, required) || (exact.Some? && !Clean(field, exact.value)) then error == InvalidRequirements
    else
      && exact.Some? && error.RequiredCapabilityExcludedByExactPolicy?
      && FirstMissingIs(field, required, error.value, Canon(field, exact.value))
  }

  /** Requirements are accepted exactly when they are clean and the exact set admits what is required. */
  method ValidateRequirements(field: Field, required: seq<string>, exact: Option<seq<string>>)
    returns (r: Result<(), Error>)
    ensures r.Ok? <==> Satisfiable(field, required, exact)
    ensures r.Err? ==> ExplainsRequirement(r.error, field, required, exact)
  {
    var seen, flaw := Scan(field, required);
    if flaw.Some? {
      return Err(InvalidRequirements);
    }
    if exact.None? {
      return Ok(());
    }
    var exactSeen, exactFlaw := Scan(field, exact.value);
    if exactFlaw.Some? {
      return Err(InvalidRequirements);
    }
    var missing := Find(field, required, exactSeen);
    if missing.Some? {
      return Err(RequiredCapabilityExcludedByExactPolicy(required[missing.value]));
    }
    return Ok(());
  }

  /** The metadata meets the requirement: a clean list with all that is required and, if exact, nothing else. */
  ghost predicate Meets(
    field: Field, advertised: Option<seq<string>>, required: seq<string>, exact: Option<seq<string>>)
  {
    match advertised
    case None => required == [] && exact.None?
    case Some(values) =>
      && Clean(field, values)
      && Covered(field, required, Canon(field, values))
      && (exact.Some? ==> AllValid(field, exact.value) && Canon(field, exact.value) == Canon(field, values))
  }

  /** What each refusal of the metadata says: the first thing found wrong. */
  ghost predicate Explains(
    error: Error, field: Field, advertised: Option<seq<string>>, required: seq<string>, exact: Option<seq<string>>)
  {
    match advertised
    case None => error == MissingCapabilityField && (required != [] || exact.Some?)
    case Some(values) =>
      match error
      case InvalidCapabilityValue(i) => FirstFlaw(field, values, Invalid(i))
      case DuplicateCapabilityValue(i) => FirstFlaw(field, values, Repeated(i))
      case _ => Clean(field, values) && ExplainsPolicy(error, field, values, Canon(field, values), required, exact)
  }

  /** The refusals that remain for a clean list. */
  ghost predicate ExplainsPolicy(
    error: Error, field: Field, values: seq<string>, known: set<string>,
    required: seq<string>, exact: Option<seq<string>>)
  {
    if Covered(field, required, known) then exact.Some? && ExplainsExact(error, field, values, known, exact.value)
    else if error == InvalidRequirements then
      exists i: nat :: i < |required| && Covered(field, required[..i], known) && Canonical(field, required[i]).None?
    else error.MissingRequiredCapability? && FirstMissingIs(field, required, error.value, known)
  }

  ghost predicate ExplainsExact(
    error: Error, field: Field, values: seq<string>, known: set<string>, exact: seq<string>)
  {
    if !AllValid(field, exact) then error == InvalidRequirements
    else if !(known <= Canon(field, exact)) then
      error.UnexpectedCapability? && FirstMissingIs(field, values, error.value, Canon(field, exact))
    else error.MissingRequiredCapability? && FirstMissingIs(field, exact, error.value, known)
  }

  lemma FirstMissingUnique(field: Field, values: seq<string>, i: nat, j: nat, known: set<string>)
    requires FirstMissing(field, values, i, known) && FirstMissing(field, values, j, known)
    ensures i == j
  {
    if i < j { MissingNotCovered(field, values, i, j, known); }
    if j < i { MissingNotCovered(field, values, j, i, known); }
  }

  lemma MissingNotCovered(field: Field, values: seq<string>, i: nat, j: nat, known: set<string>)
    requires FirstMissing(field, values, i, known) && i < j <= |values|
    ensures !Covered(field, values[..j], known)
  {
    assert values[..j][i] == values[i];
    CanonHas(field, values[..j], i);
  }

  lemma FlawUnique(field: Field, values: seq<string>, f: Flaw, g: Flaw)
    requires FirstFlaw(field, values, f) && FirstFlaw(field, values, g)
    ensures f == g
  {
    if f.index < g.index { FlawEarlier(field, values, f, g.index); }
    if g.index < f.index { FlawEarlier(field, values, g, f.index); }
  }

  lemma FlawEarlier(field: Field, values: seq<string>, f: Flaw, j: nat)
    requires FirstFlaw(field, values, f) && f.index < j <= |values|
    ensures !Clean(field, values[..j])
  {
    assert values[..j][..f.index] == values[..f.index] && values[..j][f.index] == values[f.index];
    FlawMeansUnclean(field, values[..j], f);
  }

  /** The refusals are exclusive: metadata has at most one explanation, and none if it meets the policy. */
  lemma ExplanationUnique(
    e: Error, f: Error, field: Field, advertised: Option<seq<string>>, required: seq<string>,
    exact: Option<seq<string>>)
    requires Explains(e, field, advertised, required, exact) && Explains(f, field, advertised, required, exact)
    ensures e == f && !Meets(field, advertised, required, exact)
  {
    if advertised.Some? {
      var values := advertised.value;
      FlawExcludesOthers(e, f, field, values);
      if Clean(field, values) {
        PolicyUnique(e, f, field, values, required, exact);
      }
    }
  }

  function FlawOf(e: Error): (flaw: Option<Flaw>)
  {
    match e
    case InvalidCapabilityValue(i) => Some(Invalid(i))
    case DuplicateCapabilityValue(i) => Some(Repeated(i))
    case _ => None
  }

  lemma FlawExcludesOthers(e: Error, f: Error, field: Field, values: seq<string>)
    requires if FlawOf(e).Some? then FirstFlaw(field, values, FlawOf(e).value) else Clean(field, values)
    requires if FlawOf(f).Some? then FirstFlaw(field, values, FlawOf(f).value) else Clean(field, values)
    ensures Clean(field, values) ==> FlawOf(e).None? && FlawOf(f).None?
    ensures !Clean(field, values) ==> e == f
  {
    if FlawOf(e).Some? { FlawMeansUnclean(field, values, FlawOf(e).value); }
    if FlawOf(f).Some? { FlawMeansUnclean(field, values, FlawOf(f).value); }
    if FlawOf(e).Some? && FlawOf(f).Some? { FlawUnique(field, values, FlawOf(e).value, FlawOf(f).value); }
  }

  lemma FirstMissingIsUnique(field: Field, values: seq<string>, v: string, w: string, known: set<string>)
    requires FirstMissingIs(field, values, v, known) && FirstMissingIs(field, values, w, known)
    ensures v == w && !Covered(field, values, known)
  {
    var i: nat :| FirstMissing(field, values, i, known) && v == values[i];
    var j: nat :| FirstMissing(field, values, j, known) && w == values[j];
    FirstMissingUnique(field, values, i, j, known);
    CanonHas(field, values, i);
  }

  /** A list cannot have its first unknown value and its first malformed value at once. */
  lemma InvalidNotMissing(field: Field, values: seq<string>, v: string, i: nat, known: set<string>)
    requires FirstMissingIs(field, values, v, known)
    requires i < |values| && Covered(field, values[..i], known)
    ensures Canonical(field, values[i]).Some?
  {
    var j: nat :| FirstMissing(field, values, j, known) && v == values[j];
    if j < i { MissingNotCovered(field, values, j, i, known); }
    if i < j { assert values[..j][i] == values[i]; }
  }

  lemma PolicyUnique(
    e: Error, f: Error, field: Field, values: seq<string>, required: seq<string>, exact: Option<seq<string>>)
    requires ExplainsPolicy(e, field, values, Canon(field, values), required, exact)
    requires ExplainsPolicy(f, field, values, Canon(field, values), required, exact)
    requires Clean(field, values)
    ensures e == f && !Meets(field, Some(values), required, exact)
  {
    var known := Canon(field, values);
    if Covered(field, required, known) {
      ExactUnique(e, f, field, values, exact.value);
    } else {
      if e != InvalidRequirements && f != InvalidRequirements {
        FirstMissingIsUnique(field, required, e.value, f.value, known);
      }
      if e != InvalidRequirements && f == InvalidRequirements { MixedExplanation(e, field, required, known); }
      if f != InvalidRequirements && e == InvalidRequirements { MixedExplanation(f, field, required, known); }
    }
  }

  lemma MixedExplanation(e: Error, field: Field, required: seq<string>, known: set<string>)
    requires e.MissingRequiredCapability? && FirstMissingIs(field, required, e.value, known)
    ensures !exists i: nat ::
      i < |required| && Covered(field, required[..i], known) && Canonical(field, required[i]).None?
  {
    forall i: nat | i < |required| && Covered(field, required[..i], known)
      ensures Canonical(field, required[i]).Some?
    {
      InvalidNotMissing(field, required, e.value, i, known);
    }
  }

  lemma ExactUnique(e: Error, f: Error, field: Field, values: seq<string>, exact: seq<string>)
    requires Clean(field, values)
    requires ExplainsExact(e, field, values, Canon(field, values), exact)
    requires ExplainsExact(f, field, values, Canon(field, values), exact)
    ensures e == f && !(AllValid(field, exact) && Canon(field, exact) == Canon(field, values))
  {
    var known := Canon(field, values);
    if AllValid(field, exact) {
      if known <= Canon(field, exact) {
        FirstMissingIsUnique(field, exact, e.value, f.value, known);
      } else {
        FirstMissingIsUnique(field, values, e.value, f.value, Canon(field, exact));
      }
    }
  }

  lemma CoveredAppend(field: Field, values: seq<string>, i: nat, known: set<string>)
    requires i < |values| && Covered(field, values[..i], known)
    requires Canonical(field, values[i]).Some? && Canonical(field, values[i]).value in known
    ensures Covered(field, values[..i + 1], known)
  {
    CanonAppend(field, values, i);
    Around(values, i);
  }

  /** The first required value that is malformed or not advertised. */
  method CheckRequired(field: Field, required: seq<string>, seen: set<string>) returns (problem: Option<Error>)
    ensures problem.None? <==> Covered(field, required, seen)
    ensures problem == Some(InvalidRequirements) ==>
      exists i: nat :: i < |required| && Covered(field, required[..i], seen) && Canonical(field, required[i]).None?
    ensures problem.Some? && problem.value != InvalidRequirements ==>
      problem.value.MissingRequiredCapability? && FirstMissingIs(field, required, problem.value.value, seen)
  {
    for i := 0 to |required|
      invariant Covered(field, required[..i], seen)
    {
      var canonical := Canonical(field, required[i]);
      if canonical.None? {
        return Some(InvalidRequirements);
      }
      if canonical.value !in seen {
        CanonHas(field, required, i);
        assert FirstMissing(field, required, i, seen);
        return Some(MissingRequiredCapability(required[i]));
      }
      CoveredAppend(field, required, i, seen);
    }
    assert required[..|required|] == required;
    problem := None;
  }

  /** Metadata is accepted exactly when it meets the requirement, and refused for the first thing wrong. */
  method ValidateCapabilities(
    field: Field, advertised: Option<seq<string>>, required: seq<string>, exact: Option<seq<string>>)
    returns (r: Result<(), Error>)
    ensures r.Ok? <==> Meets(field, advertised, required, exact)
    ensures r.Err? ==> Explains(r.error, field, advertised, required, exact)
  {
    if advertised.None? {
      return if required == [] && exact.None? then Ok(()) else Err(MissingCapabilityField);
    }
    var values := advertised.value;
    var seen, flaw := Scan(field, values);
    if flaw.Some? {
      FlawMeansUnclean(field, values, flaw.value);
      return Err(if flaw.value.Invalid? then InvalidCapabilityValue(flaw.value.index)
                 else DuplicateCapabilityValue(flaw.value.index));
    }
    var problem := CheckRequired(field, required, seen);
    if problem.Some? {
      return Err(problem.value);
    }
    if exact.Some? {
      r := ValidateExact(field, values, seen, exact.value);
    } else {
      r := Ok(());
    }
  }

  /** The exact policy: nothing beyond it, then nothing short of it. */
  method ValidateExact(field: Field, values: seq<string>, seen: set<string>, exact: seq<string>)
    returns (r: Result<(), Error>)
    requires Clean(field, values) && seen == Canon(field, values)
    ensures r.Ok? <==> AllValid(field, exact) && Canon(field, exact) == seen
    ensures r.Err? ==> ExplainsExact(r.error, field, values, seen, exact)
  {
    var exactSeen: set<string> := {};
    for i := 0 to |exact|
      invariant exactSeen == Canon(field, exact[..i]) && AllValid(field, exact[..i])
    {
      var canonical := Canonical(field, exact[i]);
      if canonical.None? {
        return Err(InvalidRequirements);
      }
      CanonAppend(field, exact, i);
      exactSeen := exactSeen + {canonical.value};
    }
    assert exact[..|exact|] == exact;
    var unexpected := Find(field, values, exactSeen);
    if unexpected.Some? {
      return Err(UnexpectedCapability(values[unexpected.value]));
    }
    var missing := Find(field, exact, seen);
    if missing.Some? {
      return Err(MissingRequiredCapability(exact[missing.value]));
    }
    return Ok(());
  }

  // ----- The three fields together -----

  /** What is required of one field and what the metadata advertises for it. */
  datatype Demand = Demand(
    field: Field, advertised: Option<seq<string>>, required: seq<string>, exact: Option<seq<string>>)

  ghost predicate AllSatisfiable(demands: seq<Demand>)
  {
    forall i :: 0 <= i < |demands| ==> Satisfiable(demands[i].field, demands[i].required, demands[i].exact)
  }

  ghost predicate AllMet(demands: seq<Demand>)
  {
    forall i :: 0 <= i < |demands| ==>
      Meets(demands[i].field, demands[i].advertised, demands[i].required, demands[i].exact)
  }

  /**
   * All requirements are examined before any metadata, each in the order of the fields: accepted exactly when
   * all are satisfiable and met, and an error about the metadata means that every requirement was satisfiable.
   */
  method ValidateAll(demands: seq<Demand>) returns (r: Result<(), Error>, ghost failed: nat)
    ensures r.Ok? <==> AllSatisfiable(demands) && AllMet(demands)
    ensures r.Err? ==> failed < |demands|
    ensures r.Err? && AllSatisfiable(demands) ==>
      var d := demands[failed];
      && Explains(r.error, d.field, d.advertised, d.required, d.exact) && r.error != InvalidRequirements
      && AllMet(demands[..failed])
    ensures r.Err? && !AllSatisfiable(demands) ==>
      && AllSatisfiable(demands[..failed])
      && !Satisfiable(demands[failed].field, demands[failed].required, demands[failed].exact)
      && ExplainsRequirement(r.error, demands[failed].field, demands[failed].required, demands[failed].exact)
  {
    r, failed := Ok(()), 0;
    for i := 0 to |demands|
      invariant AllSatisfiable(demands[..i])
    {
      var d := demands[i];
      r := ValidateRequirements(d.field, d.required, d.exact);
      if r.Err? {
        failed := i;
        return;
      }
      Around(demands, i);
    }
    assert demands[..|demands|] == demands;
    for i := 0 to |demands|
      invariant AllMet(demands[..i])
    {
      var d := demands[i];
      r := ValidateCapabilities(d.field, d.advertised, d.required, d.exact);
      if r.Err? {
        ExplanationUnique(r.error, r.error, d.field, d.advertised, d.required, d.exact);
        failed := i;
        return;
      }
      Around(demands, i);
    }
    r := Ok(());
  }
}
