/**
 * What the text-file factory promises, proved about the specification
 * functions of module TextFile: how each kind of line is classified, that
 * errors accumulate in line order without stopping the scan, that features
 * are only ever created or extended, and that Create succeeds exactly when
 * nothing was reported.
 */
module TextFileProperties {
  import opened Wrappers
  import opened Strings
  import opened Features
  import opened FeatureTables
  import opened TextFile

  // ---------------------------------------------------------------- one line

  /** A line whose text before the first '=' is blank or a remark changes nothing, however many '=' it has. */
  lemma SkippedLineChangesNothing(s: State, reg: Registry, row: string, n: nat)
    requires IsSkipped(row)
    ensures LineStep(s, reg, row, n) == Some(s)
  {
  }

  /** A line that starts with '=' is skipped, whatever follows. */
  lemma LeadingEqualSignSkipped(rest: string)
    ensures IsSkipped("=" + rest)
  {
    var row := "=" + rest;
    assert row[0] == '=';
    assert Split(row, '=')[0] == [];
  }

  /** A line whose first non-blank character is '#' is a remark, whatever follows. */
  lemma RemarkSkipped(w: string, rest: string)
    requires AllWhiteSpace(w)
    ensures IsSkipped(w + "#" + rest)
  {
    var row := w + "#" + rest;
    SplitFirst(row, '=');
    var first := Split(row, '=')[0];
    assert row[|w|] == '#';
    assert forall k :: 0 <= k < |w| ==> row[k] == w[k] && IsWhiteSpace(row[k]);
    assert forall k :: 0 <= k < |w| ==> first[k] == w[k];
    assert first[|w|] == '#';
    var b := SkipWhiteSpace(first, 0);
    assert b == |w|;
  }

  /** A line that is not skipped and has no '=' yields exactly one "Missing equal sign" message. */
  lemma MissingEqualSignLine(s: State, reg: Registry, row: string, n: nat)
    requires !IsSkipped(row) && '=' !in row
    ensures LineStep(s, reg, row, n) == Some(Report(s, MustContainEqualSign(n)))
  {
    CountZero(row, '=');
  }

  /** A line that is not skipped and has two or more '=' yields exactly one "More than one equal sign" message. */
  lemma MoreThanOneEqualSignLine(s: State, reg: Registry, row: string, n: nat)
    requires !IsSkipped(row) && Count(row, '=') >= 2
    ensures LineStep(s, reg, row, n) == Some(Report(s, MustOnlyContainOneEqualSign(n)))
  {
  }

  /** The pieces of `l=r` when neither side holds '='. */
  lemma SplitAtEqualSign(l: string, r: string)
    requires '=' !in l && '=' !in r
    ensures Split(l + "=" + r, '=') == [l, r]
  {
    assert Join([l, r], '=') == l + "=" + r by {
      assert [l, r][1..] == [r];
    }
    SplitJoin([l, r], '=');
  }

  /**
   * A declaration `flag = spec` whose specification is registered creates
   * the feature, or appends an instance to the feature already stored under
   * the same key in any letter case; other features and the messages stay as
   * they were. An unregistered specification yields one "Unknown
   * specification" message and leaves the features alone.
   */
  lemma DeclarationLine(s: State, reg: Registry, l: string, r: string, n: nat)
    requires '=' !in l && '=' !in r
    requires !IsSkipped(l + "=" + r) && '.' !in Trim(l)
    ensures var flag, spec, res := Trim(l), Trim(r), LineStep(s, reg, l + "=" + r, n);
      && (spec in reg ==>
            res.Some? && res.value.log == s.log
            && Contains(res.value.table, flag)
            && res.value.table.keys == s.table.keys + (if Contains(s.table, flag) then [] else [flag])
            && Get(res.value.table, flag).specifications
               == (if Contains(s.table, flag) then Get(s.table, flag).specifications else [])
                  + [SpecInstance(reg[spec], map[])]
            && (forall k :: Fold(k) != Fold(flag) ==> Lookup(res.value.table, k) == Lookup(s.table, k)))
      && (spec !in reg ==> res == Some(Report(s, MustHaveValidSpecification(spec, n))))
  {
    var row := l + "=" + r;
    SplitAtEqualSign(l, r);
    assert LeftOfEqualSign(row) == Trim(l);
    var flag := Trim(l);
    assert Split(flag, '.') == [flag] by {
      SplitJoin([flag], '.');
    }
  }

  /**
   * A parameter line `flag.spec.param = value`: before any declaration of
   * the flag it yields one "Declare specification" message; for a declared
   * flag an unregistered specification aborts the whole factory (the
   * dictionary lookup throws); a parameter already set yields one "Parameter
   * declared twice" message; otherwise the parameter is set on the feature.
   */
  lemma ParameterLine(s: State, reg: Registry, l: string, r: string, n: nat, flag: string, spec: string, param: string)
    requires '=' !in l && '=' !in r
    requires !IsSkipped(l + "=" + r) && Split(Trim(l), '.') == [flag, spec, param]
    ensures var res := LineStep(s, reg, l + "=" + r, n);
      && (!Contains(s.table, flag) ==> res == Some(Report(s, MustDeclareSpecificationBeforeParameter(flag, n))))
      && (Contains(s.table, flag) && spec !in reg ==> res.None?)
      && (Contains(s.table, flag) && spec in reg ==>
            match AddParameter(Get(s.table, flag), reg[spec], Trim(param), Trim(r))
            case ParameterDeclaredTwice =>
              res == Some(Report(s, MustOnlyContainSameParameterOnce(Trim(param), n)))
            case ParameterSet(g) =>
              res.Some? && res.value.log == s.log && Lookup(res.value.table, flag) == Some(g)
              && res.value.table.keys == s.table.keys
              && (forall k :: Fold(k) != Fold(flag) ==> Lookup(res.value.table, k) == Lookup(s.table, k))
            case SpecificationNotAttached => res.None?)
  {
    SplitAtEqualSign(l, r);
    assert LeftOfEqualSign(l + "=" + r) == Trim(l);
  }

  /** A left side with one or three or more dots, never two, yields one "Wrong parameter usage" message. */
  lemma WrongParameterUsageLine(s: State, reg: Registry, l: string, r: string, n: nat)
    requires '=' !in l && '=' !in r
    requires !IsSkipped(l + "=" + r) && Count(Trim(l), '.') != 0 && Count(Trim(l), '.') != 2
    ensures LineStep(s, reg, l + "=" + r, n) == Some(Report(s, MustHaveTwoDotsIfParameterUse(n)))
  {
    SplitAtEqualSign(l, r);
    assert LeftOfEqualSign(l + "=" + r) == Trim(l);
  }

  /** Only a parameter line of a declared flag can abort: exactly one '=' and exactly two dots. */
  lemma AbortOnlyOnParameterLine(s: State, reg: Registry, row: string, n: nat)
    requires LineStep(s, reg, row, n).None?
    ensures Count(row, '=') == 1 && Count(LeftOfEqualSign(row), '.') == 2
    ensures Contains(s.table, Split(LeftOfEqualSign(row), '.')[0])
  {
  }

  // ---------------------------------------------------------------- the whole scan

  /** log' is log, or log with one line message for line n appended. */
  ghost predicate LogStep(log: seq<Message>, log': seq<Message>, n: nat) {
    log' == log
    || (|log'| == |log| + 1 && log'[..|log|] == log && IsLineMessage(log'[|log|]) && log'[|log|].line == n)
  }

  /** A step that adds at most one message per line, a line message carrying that line's number. */
  ghost predicate LogsLineByLine(step: Step) {
    forall s: State, row: string, n: nat :: step(s, row, n).Some? ==> LogStep(s.log, step(s, row, n).value.log, n)
  }

  /** One line adds at most one message, a line message carrying that line's number. */
  lemma LineStepLog(s: State, reg: Registry, row: string, n: nat)
    requires LineStep(s, reg, row, n).Some?
    ensures LogStep(s.log, LineStep(s, reg, row, n).value.log, n)
  {
    var parts := Split(row, '=');
    if !IsSkipped(row) && |parts| == 2 {
      RowStepLog(s, reg, LeftOfEqualSign(row), Trim(parts[1]), n);
    }
  }

  lemma RowStepLog(s: State, reg: Registry, left: string, right: string, n: nat)
    requires RowStep(s, reg, left, right, n).Some?
    ensures LogStep(s.log, RowStep(s, reg, left, right, n).value.log, n)
  {
  }

  lemma LineStepsLogLineByLine(reg: Registry)
    ensures LogsLineByLine(LineSteps(reg))
  {
    forall s: State, row: string, n: nat | LineStep(s, reg, row, n).Some?
      ensures LogStep(s.log, LineStep(s, reg, row, n).value.log, n)
    {
      LineStepLog(s, reg, row, n);
    }
  }

  /** Messages from the first k lines are line messages numbered 1..k, in strictly increasing line order. */
  ghost predicate InLineOrder(log: seq<Message>, k: nat) {
    (forall i :: 0 <= i < |log| ==> IsLineMessage(log[i]) && 1 <= log[i].line <= k)
    && (forall i, j :: 0 <= i < j < |log| ==> log[i].line < log[j].line)
  }

  /**
   * Scan messages appear in line order, at most one per line, each naming
   * a line of the document (line numbers count skipped lines too).
   */
  lemma {:induction false} ScanMessagesInLineOrder(step: Step, lines: seq<string>, k: nat)
    requires LogsLineByLine(step)
    requires k <= |lines| && Scan(step, lines, k).Some?
    ensures InLineOrder(Scan(step, lines, k).value.log, k)
    ensures |Scan(step, lines, k).value.log| <= k
  {
    if k > 0 {
      var prev := Scan(step, lines, k - 1).value;
      ScanMessagesInLineOrder(step, lines, k - 1);
      InLineOrderStep(prev.log, Scan(step, lines, k).value.log, k);
    }
  }

  lemma InLineOrderStep(log: seq<Message>, log': seq<Message>, k: nat)
    requires k > 0 && InLineOrder(log, k - 1) && |log| <= k - 1
    requires LogStep(log, log', k)
    ensures InLineOrder(log', k) && |log'| <= k
  {
    if log' != log {
      assert forall i :: 0 <= i < |log| ==> log'[i] == log[i];
    }
  }

  /**
   * Errors never stop the scan and are never taken back: whenever the scan
   * of k lines completes, the scan of every shorter prefix completed too,
   * and its messages begin the longer scan's messages.
   */
  lemma {:induction false} ScanLogExtends(step: Step, lines: seq<string>, j: nat, k: nat)
    requires LogsLineByLine(step)
    requires j <= k <= |lines| && Scan(step, lines, k).Some?
    ensures Scan(step, lines, j).Some?
    ensures Scan(step, lines, j).value.log <= Scan(step, lines, k).value.log
    decreases k
  {
    if j < k {
      ScanLogExtends(step, lines, j, k - 1);
      var prev := Scan(step, lines, k - 1).value;
      assert LogStep(prev.log, Scan(step, lines, k).value.log, k);
    }
  }

  /** Table u keeps everything of t: the stored keys, each feature's instances in order, and their parameters. */
  ghost predicate Extends(t: Table, u: Table) {
    t.keys <= u.keys
    && forall key :: Contains(t, key) ==>
         Contains(u, key)
         && SpecIds(Get(t, key)) <= SpecIds(Get(u, key))
         && KeepsParameters(Get(t, key), Get(u, key))
  }

  lemma ExtendsTransitive(t: Table, u: Table, v: Table)
    requires Extends(t, u) && Extends(u, v)
    ensures Extends(t, v)
  {
    forall key | Contains(t, key)
      ensures SpecIds(Get(t, key)) <= SpecIds(Get(v, key))
      ensures KeepsParameters(Get(t, key), Get(v, key))
    {
      var a, b, c := Get(t, key), Get(u, key), Get(v, key);
      assert SpecIds(a) <= SpecIds(b) <= SpecIds(c);
    }
  }

  /** No line removes or replaces anything: features are only created, or extended by appending. */
  lemma LineStepExtends(s: State, reg: Registry, row: string, n: nat)
    requires LineStep(s, reg, row, n).Some?
    ensures Extends(s.table, LineStep(s, reg, row, n).value.table)
  {
    var u := LineStep(s, reg, row, n).value.table;
    if u != s.table {
      var parts := Split(row, '=');
      var left := LeftOfEqualSign(row);
      var right := Trim(parts[1]);
      var segments := Split(left, '.');
      if |segments| == 1 {
        var spec := reg[right];
        if Contains(s.table, left) {
          var f := Get(s.table, left);
          var g := AddSpecification(f, spec);
          assert SpecIds(g) == SpecIds(f) + [spec];
          forall key | Contains(s.table, key)
            ensures SpecIds(Get(s.table, key)) <= SpecIds(Get(u, key))
            ensures KeepsParameters(Get(s.table, key), Get(u, key))
          {
            if Fold(key) == Fold(left) { assert Get(s.table, key) == f && Get(u, key) == g; }
          }
        }
      } else {
        var flag := segments[0];
        var f := Get(s.table, flag);
        var out := AddParameter(f, reg[segments[1]], Trim(segments[2]), right);
        AddParameterAppends(f, reg[segments[1]], Trim(segments[2]), right);
        forall key | Contains(s.table, key)
          ensures SpecIds(Get(s.table, key)) <= SpecIds(Get(u, key))
          ensures KeepsParameters(Get(s.table, key), Get(u, key))
        {
          if Fold(key) == Fold(flag) { assert Get(s.table, key) == f && Get(u, key) == out.feature; }
        }
      }
    }
  }

  /** A step that only ever creates or extends features. */
  ghost predicate OnlyExtends(step: Step) {
    forall s: State, row: string, n: nat :: step(s, row, n).Some? ==> Extends(s.table, step(s, row, n).value.table)
  }

  lemma LineStepsOnlyExtend(reg: Registry)
    ensures OnlyExtends(LineSteps(reg))
  {
    forall s: State, row: string, n: nat | LineStep(s, reg, row, n).Some?
      ensures Extends(s.table, LineStep(s, reg, row, n).value.table)
    {
      LineStepExtends(s, reg, row, n);
    }
  }

  /**
   * Across the whole scan nothing is ever removed or replaced: every feature
   * present after j lines is still there after k lines, with its earlier
   * instances first, and every parameter already set keeps its value.
   */
  lemma {:induction false} ScanOnlyExtends(step: Step, lines: seq<string>, j: nat, k: nat)
    requires OnlyExtends(step)
    requires j <= k <= |lines| && Scan(step, lines, k).Some?
    ensures Scan(step, lines, j).Some?
    ensures Extends(Scan(step, lines, j).value.table, Scan(step, lines, k).value.table)
    decreases k
  {
    if j < k {
      ScanOnlyExtends(step, lines, j, k - 1);
      var prev := Scan(step, lines, k - 1).value;
      ExtendsTransitive(Scan(step, lines, j).value.table, prev.table, Scan(step, lines, k).value.table);
    }
  }

  // ---------------------------------------------------------------- validation and the outcome

  /** Validation of the first k features reports nothing exactly when each of them validates. */
  lemma {:induction false} ValidationMessagesEmptyIff(t: Table, validate: Validator, k: nat)
    requires WellFormed(t) && k <= |t.keys|
    ensures ValidationMessages(t, validate, k) == []
        <==> forall i :: 0 <= i < k ==> validate(t.keys[i], t.entries[Fold(t.keys[i])]).None?
  {
    if k > 0 {
      ValidationMessagesEmptyIff(t, validate, k - 1);
    }
  }

  /**
   * Validation of the first k features contributes at most k messages, and
   * none of them is a scan message.
   */
  lemma {:induction false} ValidationMessagesShape(t: Table, validate: Validator, k: nat)
    requires WellFormed(t) && k <= |t.keys|
    ensures |ValidationMessages(t, validate, k)| <= k
    ensures forall i :: 0 <= i < |ValidationMessages(t, validate, k)| ==>
              !IsLineMessage(ValidationMessages(t, validate, k)[i])
  {
    if k > 0 {
      ValidationMessagesShape(t, validate, k - 1);
    }
  }

  /** Every feature whose validation fails has its message among the validation messages. */
  lemma {:induction false} ValidationMessagesComplete(t: Table, validate: Validator, k: nat, i: nat)
    requires WellFormed(t) && i < k <= |t.keys|
    requires validate(t.keys[i], t.entries[Fold(t.keys[i])]).Some?
    ensures InvalidSpecificationParameter(validate(t.keys[i], t.entries[Fold(t.keys[i])]).value)
            in ValidationMessages(t, validate, k)
  {
    FoldedKeysHas(t.keys, k - 1);
    if i < k - 1 {
      ValidationMessagesComplete(t, validate, k - 1, i);
    }
  }

  /** Every validation message is the failure text of one of the first k features. */
  lemma {:induction false} ValidationMessagesSound(t: Table, validate: Validator, k: nat)
    requires WellFormed(t) && k <= |t.keys|
    ensures forall m :: m in ValidationMessages(t, validate, k) ==>
              m.InvalidSpecificationParameter?
              && exists i :: 0 <= i < k && validate(t.keys[i], Get(t, t.keys[i])) == Some(m.text)
  {
    if k > 0 {
      ValidationMessagesSound(t, validate, k - 1);
      FoldedKeysHas(t.keys, k - 1);
      forall i | 0 <= i < k
        ensures Contains(t, t.keys[i])
      {
        FoldedKeysHas(t.keys, i);
      }
    }
  }

  /**
   * Create returns a provider exactly when neither the scan nor the
   * validation of any feature reported anything, and the provider holds
   * exactly the scanned features.
   */
  lemma CreateSucceedsIff(reg: Registry, lines: seq<string>, validate: Validator)
    ensures CreateSpec(reg, lines, validate).Provider?
        <==> ParseAll(reg, lines).Some?
             && ParseAll(reg, lines).value.log == []
             && forall i :: 0 <= i < |ParseAll(reg, lines).value.table.keys| ==>
                  var t := ParseAll(reg, lines).value.table;
                  Contains(t, t.keys[i]) && validate(t.keys[i], Get(t, t.keys[i])).None?
    ensures CreateSpec(reg, lines, validate).Provider? ==>
              CreateSpec(reg, lines, validate).features == ParseAll(reg, lines).value.table
  {
    match ParseAll(reg, lines)
    case None =>
    case Some(st) =>
      ParseAllWellFormed(reg, lines);
      forall i | 0 <= i < |st.table.keys| ensures Contains(st.table, st.table.keys[i]) {
        FoldedKeysHas(st.table.keys, i);
      }
      var v := ValidationMessages(st.table, validate, |st.table.keys|);
      ValidationMessagesEmptyIff(st.table, validate, |st.table.keys|);
      TextLengthPositive(st.log + v);
  }

  /**
   * On failure the one aggregate error holds every scan message, in line
   * order, followed by every validation message.
   */
  lemma CreateFailureMessages(reg: Registry, lines: seq<string>, validate: Validator)
    requires CreateSpec(reg, lines, validate).IncorrectTextFile?
    ensures var ms := CreateSpec(reg, lines, validate).messages;
      var scan := ParseAll(reg, lines).value.log;
      var t := ParseAll(reg, lines).value.table;
      && WellFormed(t)
      && ms == scan + ValidationMessages(t, validate, |t.keys|)
      && |ms| > 0 && scan <= ms
      && InLineOrder(scan, |lines|)
      && forall i :: |scan| <= i < |ms| ==> !IsLineMessage(ms[i])
  {
    var st := ParseAll(reg, lines).value;
    ParseAllWellFormed(reg, lines);
    var v := ValidationMessages(st.table, validate, |st.table.keys|);
    assert CreateSpec(reg, lines, validate).messages == st.log + v;
    ValidationMessagesShape(st.table, validate, |st.table.keys|);
    LineStepsLogLineByLine(reg);
    ScanMessagesInLineOrder(LineSteps(reg), lines, |lines|);
    TextLengthPositive(st.log + v);
    ConcatenatedKinds(st.log, v);
  }

  lemma ConcatenatedKinds(scan: seq<Message>, v: seq<Message>)
    requires forall i :: 0 <= i < |v| ==> !IsLineMessage(v[i])
    ensures scan <= scan + v
    ensures forall i :: |scan| <= i < |scan + v| ==> !IsLineMessage((scan + v)[i])
  {
    assert forall i :: |scan| <= i < |scan + v| ==> (scan + v)[i] == v[i - |scan|];
  }

  /** Create ends with the escaping lookup failure exactly when some parameter line aborted the scan. */
  lemma CreateAbortsIff(reg: Registry, lines: seq<string>, validate: Validator)
    ensures CreateSpec(reg, lines, validate).KeyNotFound? <==> ParseAll(reg, lines).None?
  {
  }
}
