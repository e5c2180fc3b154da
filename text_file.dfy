/**
 * The text-file feature provider factory.
 *
 * Each line is split on '=': remark and blank lines are skipped, a line
 * with no or several '=' is reported, and `flag = spec` or
 * `flag.spec.param = value` updates the feature dictionary. Every error
 * goes into one message buffer and scanning continues; afterwards every
 * feature is validated into the same buffer, and a provider is produced
 * only when the buffer stayed empty.
 *
 * The pure functions LineStep, RowStep, Scan and CreateSpec state what
 * the factory computes; the methods ParseRow, ParseFile and Create do it
 * step by step on a mutable dictionary and buffer and are proved against them.
 */
module TextFile {
  import opened Wrappers
  import opened Strings
  import opened Features
  import opened FeatureTables

  /** The specification mappings: the specification a name on the right of '=' stands for. */
  type Registry = map<string, SpecId>

  /** Feature.Validate(flag): the message of the exception it throws, if it throws. */
  type Validator = (string, Feature) -> Option<string>

  /** One line of the message buffer, one constructor per message template. */
  datatype Message =
    | MustContainEqualSign(line: nat)
    | MustOnlyContainOneEqualSign(line: nat)
    | MustHaveValidSpecification(specification: string, line: nat)
    | MustHaveTwoDotsIfParameterUse(line: nat)
    | MustOnlyContainSameParameterOnce(parameter: string, line: nat)
    | MustDeclareSpecificationBeforeParameter(feature: string, line: nat)
    | InvalidSpecificationParameter(text: string)

  /** Messages produced while scanning lines, as opposed to validation messages. */
  predicate IsLineMessage(m: Message) {
    !m.InvalidSpecificationParameter?
  }

  /** "at line {n}": where every line message ends. */
  function AtLine(n: nat): string {
    "at line " + NatToString(n)
  }

  /** The text of a message: the format templates filled in with the line number and name. */
  function Render(m: Message): string {
    match m
    case MustContainEqualSign(n) => "Missing equal sign " + AtLine(n) + "."
    case MustOnlyContainOneEqualSign(n) => "More than one equal sign " + AtLine(n) + "."
    case MustHaveValidSpecification(s, n) => "Unknown specification '" + s + "' " + AtLine(n) + "."
    case MustHaveTwoDotsIfParameterUse(n) =>
      "Wrong parameter usage " + AtLine(n)
      + ". Use format [feature].[specification].[parametername] = [parametervalue]."
    case MustOnlyContainSameParameterOnce(p, n) => "Parameter '" + p + "' declared twice " + AtLine(n) + "."
    case MustDeclareSpecificationBeforeParameter(f, n) =>
      "Declare specification for feature '" + f + "' before setting parameter " + AtLine(n) + "."
    case InvalidSpecificationParameter(text) => text
  }

  /** Every line message names its line number in decimal, and a validation message is passed on unchanged. */
  lemma RenderNamesLine(m: Message)
    ensures IsLineMessage(m) ==> exists p, q :: Render(m) == p + AtLine(m.line) + q
    ensures !IsLineMessage(m) ==> Render(m) == m.text
  {
    if IsLineMessage(m) {
      var pq := RenderPieces(m);
      assert Render(m) == pq.0 + AtLine(m.line) + pq.1;
    }
  }

  /** The text before and after "at line {n}" in a line message. */
  function RenderPieces(m: Message): (pq: (string, string))
    requires IsLineMessage(m)
    ensures Render(m) == pq.0 + AtLine(m.line) + pq.1
  {
    match m
    case MustContainEqualSign(n) => ("Missing equal sign ", ".")
    case MustOnlyContainOneEqualSign(n) => ("More than one equal sign ", ".")
    case MustHaveValidSpecification(s, n) => ("Unknown specification '" + s + "' ", ".")
    case MustHaveTwoDotsIfParameterUse(n) =>
      ("Wrong parameter usage ", ". Use format [feature].[specification].[parametername] = [parametervalue].")
    case MustOnlyContainSameParameterOnce(p, n) => ("Parameter '" + p + "' declared twice ", ".")
    case MustDeclareSpecificationBeforeParameter(f, n) =>
      ("Declare specification for feature '" + f + "' before setting parameter ", ".")
  }

  const NewLine: string := "\n"

  /** StringBuilder.Length after AppendLine of each message in turn. */
  function TextLength(ms: seq<Message>): nat {
    if ms == [] then 0 else TextLength(ms[..|ms| - 1]) + |Render(ms[|ms| - 1])| + |NewLine|
  }

  /** The buffer's text is non-empty exactly when some message was appended, even an empty one. */
  lemma TextLengthPositive(ms: seq<Message>)
    ensures TextLength(ms) > 0 <==> |ms| > 0
  {
  }

  /** The state of a scan: the feature dictionary and the messages so far. */
  datatype State = State(table: Table, log: seq<Message>)

  const InitialState := State(EmptyTable, [])

  function Report(s: State, m: Message): State {
    s.(log := s.log + [m])
  }

  /** The text left of the first '=', trimmed. */
  function LeftOfEqualSign(row: string): string {
    Trim(Split(row, '=')[0])
  }

  /** A line the scan skips before counting '=': blank left side, or a remark. */
  predicate IsSkipped(row: string) {
    var left := LeftOfEqualSign(row);
    left == [] || left[0] == '#'
  }

  /**
   * parseRow on a line with exactly one '=': dispatch on the number of
   * dot-separated segments of the trimmed left side. None is the
   * KeyNotFoundException that escapes the factory.
   */
  function RowStep(s: State, reg: Registry, left: string, right: string, n: nat): (r: Option<State>)
    ensures r.Some? ==> r.value.log == s.log || r.value.table == s.table
  {
    var segments := Split(left, '.');
    if |segments| == 1 then
      if right in reg then
        var spec := reg[right];
        if Contains(s.table, left) then
          Some(s.(table := Replace(s.table, left, AddSpecification(Get(s.table, left), spec))))
        else
          Some(s.(table := Insert(s.table, left, NewFeature(spec))))
      else
        Some(Report(s, MustHaveValidSpecification(right, n)))
    else if |segments| == 3 then
      var flag := segments[0];
      var spec := segments[1];
      var param := Trim(segments[2]);
      if !Contains(s.table, flag) then
        Some(Report(s, MustDeclareSpecificationBeforeParameter(flag, n)))
      else if spec !in reg then
        None
      else
        match AddParameter(Get(s.table, flag), reg[spec], param, right)
        case ParameterSet(f) => Some(s.(table := Replace(s.table, flag, f)))
        case ParameterDeclaredTwice => Some(Report(s, MustOnlyContainSameParameterOnce(param, n)))
        case SpecificationNotAttached => None
    else
      Some(Report(s, MustHaveTwoDotsIfParameterUse(n)))
  }

  /** One iteration of the scan over line number n (index + 1). */
  function LineStep(s: State, reg: Registry, row: string, n: nat): (r: Option<State>)
    ensures r.Some? ==> r.value.log == s.log || r.value.table == s.table
  {
    var parts := Split(row, '=');
    if IsSkipped(row) then Some(s)
    else if |parts| == 1 then Some(Report(s, MustContainEqualSign(n)))
    else if |parts| == 2 then RowStep(s, reg, LeftOfEqualSign(row), Trim(parts[1]), n)
    else Some(Report(s, MustOnlyContainOneEqualSign(n)))
  }

  /** What one line does to the scan: the line's text and number turn a state into the next one; None aborts. */
  type Step = (State, string, nat) -> Option<State>

  /** The factory's step under a given registry. */
  function LineSteps(reg: Registry): Step {
    (s: State, row: string, n: nat) => LineStep(s, reg, row, n)
  }

  /** The scan after the first k lines, line numbers counting from 1; None once a line has aborted it. */
  function Scan(step: Step, lines: seq<string>, k: nat): Option<State>
    requires k <= |lines|
  {
    if k == 0 then Some(InitialState)
    else
      match Scan(step, lines, k - 1)
      case None => None
      case Some(s) => step(s, lines[k - 1], k)
  }

  /** parseFile: the scan over the whole file. */
  function ParseAll(reg: Registry, lines: seq<string>): Option<State> {
    Scan(LineSteps(reg), lines, |lines|)
  }

  /** The dictionary a completed scan of the file ends with satisfies the dictionary invariant. */
  lemma ParseAllWellFormed(reg: Registry, lines: seq<string>)
    requires ParseAll(reg, lines).Some?
    ensures WellFormed(ParseAll(reg, lines).value.table)
  {
    LineStepsWellFormed(reg);
    ScanWellFormed(LineSteps(reg), lines, |lines|);
  }

  /** An abort is final: no later line brings the scan back. */
  lemma {:induction false} AbortPersists(step: Step, lines: seq<string>, j: nat, k: nat)
    requires j <= k <= |lines| && Scan(step, lines, j).None?
    ensures Scan(step, lines, k).None?
    decreases k
  {
    if k > j {
      AbortPersists(step, lines, j, k - 1);
    }
  }

  /** A step that keeps the dictionary invariant. */
  ghost predicate PreservesWellFormed(step: Step) {
    forall s: State, row: string, n: nat :: WellFormed(s.table) && step(s, row, n).Some? ==> WellFormed(step(s, row, n).value.table)
  }

  /** A declaration or parameter line keeps the dictionary invariant. */
  lemma RowStepWellFormed(s: State, reg: Registry, left: string, right: string, n: nat)
    requires WellFormed(s.table) && RowStep(s, reg, left, right, n).Some?
    ensures WellFormed(RowStep(s, reg, left, right, n).value.table)
  {
    var segments := Split(left, '.');
    if |segments| == 1 && right in reg {
      if Contains(s.table, left) {
        ReplaceWellFormed(s.table, left, AddSpecification(Get(s.table, left), reg[right]));
      } else {
        InsertWellFormed(s.table, left, NewFeature(reg[right]));
      }
    } else if |segments| == 3 && Contains(s.table, segments[0]) && segments[1] in reg {
      var flag := segments[0];
      match AddParameter(Get(s.table, flag), reg[segments[1]], Trim(segments[2]), right)
      case ParameterSet(f) => ReplaceWellFormed(s.table, flag, f);
      case ParameterDeclaredTwice =>
      case SpecificationNotAttached =>
    }
  }

  /** Every line of the factory keeps the dictionary invariant. */
  lemma LineStepsWellFormed(reg: Registry)
    ensures PreservesWellFormed(LineSteps(reg))
  {
    forall s: State, row: string, n: nat | WellFormed(s.table) && LineStep(s, reg, row, n).Some?
      ensures WellFormed(LineStep(s, reg, row, n).value.table)
    {
      var parts := Split(row, '=');
      if !IsSkipped(row) && |parts| == 2 {
        RowStepWellFormed(s, reg, LeftOfEqualSign(row), Trim(parts[1]), n);
      }
    }
  }

  /** A scan whose step keeps the dictionary invariant reaches only well-formed dictionaries. */
  lemma {:induction false} ScanWellFormed(step: Step, lines: seq<string>, k: nat)
    requires PreservesWellFormed(step)
    requires k <= |lines| && Scan(step, lines, k).Some?
    ensures WellFormed(Scan(step, lines, k).value.table)
  {
    if k > 0 {
      ScanWellFormed(step, lines, k - 1);
    }
  }

  /** The validation messages of the first k features, in dictionary order, at most one per feature. */
  function ValidationMessages(t: Table, validate: Validator, k: nat): seq<Message>
    requires WellFormed(t) && k <= |t.keys|
  {
    if k == 0 then []
    else
      var key := t.keys[k - 1];
      FoldedKeysHas(t.keys, k - 1);
      ValidationMessages(t, validate, k - 1)
      + match validate(key, Get(t, key))
        case Some(text) => [InvalidSpecificationParameter(text)]
        case None => []
  }

  /** What Create ends with. */
  datatype Outcome =
    | Provider(features: Table)
      /** the IncorrectTextFileException, carrying the whole buffer */
    | IncorrectTextFile(messages: seq<Message>)
      /** the KeyNotFoundException of a parameter line whose specification cannot be found */
    | KeyNotFound

  /** Create: scan, validate every feature, then succeed or fail as a whole. */
  function CreateSpec(reg: Registry, lines: seq<string>, validate: Validator): Outcome {
    match ParseAll(reg, lines)
    case None => KeyNotFound
    case Some(s) =>
      ParseAllWellFormed(reg, lines);
      var all := s.log + ValidationMessages(s.table, validate, |s.table.keys|);
      if TextLength(all) > 0 then IncorrectTextFile(all) else Provider(s.table)
  }

  /** The StringBuilder the factory collects its messages in. */
  class MessageBuffer {
    var lines: seq<Message>

    constructor ()
      ensures lines == []
    {
      lines := [];
    }

    function Length(): nat
      reads this
    {
      TextLength(lines)
    }

    method AppendLine(m: Message)
      modifies this
      ensures lines == old(lines) + [m]
    {
      lines := lines + [m];
    }
  }

  method ParseRow(readFeatures: FeatureDictionary, reg: Registry, left: string, right: string,
                  rowNumber: nat, exOutput: MessageBuffer)
    returns (aborted: bool)
    requires readFeatures.Valid()
    modifies readFeatures, exOutput
    ensures readFeatures.Valid()
    ensures var r := RowStep(State(old(readFeatures.Value()), old(exOutput.lines)), reg, left, right, rowNumber);
      aborted == r.None? && (r.Some? ==> r.value == State(readFeatures.Value(), exOutput.lines))
  {
    aborted := false;
    var splitLeftByDots := Split(left, '.');
    if |splitLeftByDots| == 1 {
      if right in reg {
        var foundSpecification := reg[right];
        if readFeatures.ContainsKey(left) {
          readFeatures.SetItem(left, AddSpecification(readFeatures.Item(left), foundSpecification));
        } else {
          readFeatures.Add(left, NewFeature(foundSpecification));
        }
      } else {
        exOutput.AppendLine(MustHaveValidSpecification(right, rowNumber));
      }
    } else if |splitLeftByDots| == 3 {
      var feature := splitLeftByDots[0];
      var specification := splitLeftByDots[1];
      var paramName := Trim(splitLeftByDots[2]);
      var paramValue := right;
      if readFeatures.ContainsKey(feature) {
        if specification !in reg {
          return true;
        }
        match AddParameter(readFeatures.Item(feature), reg[specification], paramName, paramValue)
        case ParameterSet(f) =>
          readFeatures.SetItem(feature, f);
        case ParameterDeclaredTwice =>
          exOutput.AppendLine(MustOnlyContainSameParameterOnce(paramName, rowNumber));
        case SpecificationNotAttached =>
          aborted := true;
      } else {
        exOutput.AppendLine(MustDeclareSpecificationBeforeParameter(feature, rowNumber));
      }
    } else {
      exOutput.AppendLine(MustHaveTwoDotsIfParameterUse(rowNumber));
    }
  }

  /** One iteration of parseFile's loop: classify the line by its '=' and hand a declaration or parameter line to ParseRow. */
  method ParseLine(readFeatures: FeatureDictionary, reg: Registry, row: string, rowNumber: nat, exOutput: MessageBuffer)
    returns (aborted: bool)
    requires readFeatures.Valid()
    modifies readFeatures, exOutput
    ensures readFeatures.Valid()
    ensures var r := LineStep(State(old(readFeatures.Value()), old(exOutput.lines)), reg, row, rowNumber);
      aborted == r.None? && (r.Some? ==> r.value == State(readFeatures.Value(), exOutput.lines))
  {
    aborted := false;
    var splitByEqualSign := Split(row, '=');
    var leftOfEqualSign := Trim(splitByEqualSign[0]);
    if leftOfEqualSign == [] || leftOfEqualSign[0] == '#' {
      return;
    }
    if |splitByEqualSign| == 1 {
      exOutput.AppendLine(MustContainEqualSign(rowNumber));
    } else if |splitByEqualSign| == 2 {
      var rightOfEqualSign := Trim(splitByEqualSign[1]);
      aborted := ParseRow(readFeatures, reg, leftOfEqualSign, rightOfEqualSign, rowNumber, exOutput);
    } else {
      exOutput.AppendLine(MustOnlyContainOneEqualSign(rowNumber));
    }
  }

  /** ParseLine on line index of content, stated as one more step of the scan. */
  method ScanLine(readFeatures: FeatureDictionary, reg: Registry, content: seq<string>, index: nat, exOutput: MessageBuffer)
    returns (aborted: bool)
    requires index < |content|
    requires readFeatures.Valid()
    requires Scan(LineSteps(reg), content, index) == Some(State(readFeatures.Value(), exOutput.lines))
    modifies readFeatures, exOutput
    ensures readFeatures.Valid()
    ensures aborted == Scan(LineSteps(reg), content, index + 1).None?
    ensures !aborted ==> Scan(LineSteps(reg), content, index + 1) == Some(State(readFeatures.Value(), exOutput.lines))
  {
    aborted := ParseLine(readFeatures, reg, content[index], index + 1, exOutput);
  }

  method ParseFile(reg: Registry, content: seq<string>, exOutput: MessageBuffer)
    returns (readFeatures: FeatureDictionary, aborted: bool)
    requires exOutput.lines == []
    modifies exOutput
    ensures fresh(readFeatures) && readFeatures.Valid()
    ensures aborted <==> Scan(LineSteps(reg), content, |content|).None?
    ensures !aborted ==> Scan(LineSteps(reg), content, |content|) == Some(State(readFeatures.Value(), exOutput.lines))
  {
    readFeatures := new FeatureDictionary();
    aborted := false;
    for index := 0 to |content|
      invariant readFeatures.Valid()
      invariant Scan(LineSteps(reg), content, index) == Some(State(readFeatures.Value(), exOutput.lines))
    {
      aborted := ScanLine(readFeatures, reg, content, index, exOutput);
      if aborted {
        AbortPersists(LineSteps(reg), content, index + 1, |content|);
        return;
      }
    }
  }

  /** The validation pass of Create: validate every feature in dictionary order into the buffer. */
  method ValidateAll(featureSettings: FeatureDictionary, validate: Validator, exOutput: MessageBuffer)
    requires featureSettings.Valid()
    modifies exOutput
    ensures exOutput.lines
         == old(exOutput.lines) + ValidationMessages(featureSettings.Value(), validate, |featureSettings.keys|)
  {
    ghost var parsed := exOutput.lines;
    var keys := featureSettings.keys;
    for i := 0 to |keys|
      invariant exOutput.lines == parsed + ValidationMessages(featureSettings.Value(), validate, i)
    {
      var key := keys[i];
      FoldedKeysHas(keys, i);
      var message := validate(key, featureSettings.Item(key));
      if message.Some? {
        exOutput.AppendLine(InvalidSpecificationParameter(message.value));
      }
    }
  }

  method Create(reg: Registry, content: seq<string>, validate: Validator) returns (outcome: Outcome)
    ensures outcome == CreateSpec(reg, content, validate)
  {
    var exOutput := new MessageBuffer();
    var featureSettings, aborted := ParseFile(reg, content, exOutput);
    if aborted {
      return KeyNotFound;
    }
    ValidateAll(featureSettings, validate, exOutput);
    if exOutput.Length() > 0 {
      return IncorrectTextFile(exOutput.lines);
    }
    return Provider(featureSettings.Value());
  }
}
