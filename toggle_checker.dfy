/**
 * The query side: a provider built from the parsed features answers
 * whether a flag is enabled. Flags are fail-closed: an unknown flag and a
 * flag without specifications are disabled.
 */
module Toggling {
  import opened Wrappers
  import opened Strings
  import opened Features
  import opened FeatureTables
  import opened TextFile
  import opened TextFileProperties

  /** ToggleChecker.IsEnabled over the provider's features. */
  function IsEnabled(features: Table, flag: string, custom: SpecInstance -> bool): bool {
    match Lookup(features, flag)
    case None => false
    case Some(f) => IsFeatureEnabled(f, custom)
  }

  /** A flag is enabled exactly when it is known, has a specification, and all its specifications hold. */
  lemma IsEnabledIff(features: Table, flag: string, custom: SpecInstance -> bool)
    ensures IsEnabled(features, flag, custom)
        <==> Contains(features, flag)
             && |Get(features, flag).specifications| > 0
             && forall i :: 0 <= i < |Get(features, flag).specifications| ==>
                  Evaluate(Get(features, flag).specifications[i], custom)
  {
    if Contains(features, flag) {
      EnabledIff(Get(features, flag), custom);
    }
  }

  /** An unknown flag is disabled. */
  lemma UnknownFlagDisabled(features: Table, flag: string, custom: SpecInstance -> bool)
    requires !Contains(features, flag)
    ensures !IsEnabled(features, flag, custom)
  {
  }

  /** Flags are looked up case-insensitively. */
  lemma IsEnabledIgnoresCase(features: Table, a: string, b: string, custom: SpecInstance -> bool)
    requires Fold(a) == Fold(b)
    ensures IsEnabled(features, a, custom) == IsEnabled(features, b, custom)
  {
  }

  // ---------------------------------------------------------------- documents

  /** A document of one line is scanned by one step from the initial state, as line 1. */
  lemma OneLineDocument(reg: Registry, row: string)
    ensures ParseAll(reg, [row]) == LineStep(InitialState, reg, row, 1)
  {
    assert Scan(LineSteps(reg), [row], 0) == Some(InitialState);
  }

  /** Create over a completed scan: the scan's messages, then the validation messages. */
  lemma CreateFromScan(reg: Registry, lines: seq<string>, validate: Validator, st: State)
    requires ParseAll(reg, lines) == Some(st)
    ensures WellFormed(st.table)
    ensures var all := st.log + ValidationMessages(st.table, validate, |st.table.keys|);
      CreateSpec(reg, lines, validate) == if all == [] then Provider(st.table) else IncorrectTextFile(all)
  {
    ParseAllWellFormed(reg, lines);
    TextLengthPositive(st.log + ValidationMessages(st.table, validate, |st.table.keys|));
  }

  /** The parse of `l=r` for a plain flag l and a registered specification r, in a fresh scan. */
  lemma FirstDeclaration(reg: Registry, flag: string, spec: string)
    requires flag != [] && IsTrimmed(flag) && flag[0] != '#' && '.' !in flag && '=' !in flag
    requires IsTrimmed(spec) && '=' !in spec && spec in reg
    ensures LineStep(InitialState, reg, flag + "=" + spec, 1)
         == Some(State(Insert(EmptyTable, flag, NewFeature(reg[spec])), []))
  {
    TrimTrimmed(flag);
    TrimTrimmed(spec);
    SplitAtEqualSign(flag, spec);
    DeclarationLine(InitialState, reg, flag, spec, 1);
    var res := LineStep(InitialState, reg, flag + "=" + spec, 1).value;
    var t := Insert(EmptyTable, flag, NewFeature(reg[spec]));
    assert res.table.keys == [flag];
    assert res.table.entries.Keys == {Fold(flag)} by {
      FoldedKeysHas(res.table.keys, 0);
    }
    assert res.table == t;
  }

  /** A one-line document `flag=spec` declaring a registered specification that validates. */
  lemma ShortcutDocument(reg: Registry, validate: Validator, flag: string, spec: string)
    requires flag != [] && IsTrimmed(flag) && flag[0] != '#' && '.' !in flag && '=' !in flag
    requires IsTrimmed(spec) && '=' !in spec && spec in reg
    requires validate(flag, NewFeature(reg[spec])).None?
    ensures CreateSpec(reg, [flag + "=" + spec], validate) == Provider(Insert(EmptyTable, flag, NewFeature(reg[spec])))
  {
    var t := Insert(EmptyTable, flag, NewFeature(reg[spec]));
    OneLineDocument(reg, flag + "=" + spec);
    FirstDeclaration(reg, flag, spec);
    CreateFromScan(reg, [flag + "=" + spec], validate, State(t, []));
    assert t.keys == [flag];
    assert ValidationMessages(t, validate, 1) == [];
  }

  /**
   * The document `someflag=false` parses without error when the registry
   * maps "false" to the built-in false specification, and the flag is
   * disabled.
   */
  lemma FalseShortcutDocument(reg: Registry, validate: Validator, custom: SpecInstance -> bool)
    requires "false" in reg && reg["false"] == FalseSpecification
    requires validate("someflag", NewFeature(FalseSpecification)).None?
    ensures CreateSpec(reg, ["someflag=false"], validate).Provider?
    ensures !IsEnabled(CreateSpec(reg, ["someflag=false"], validate).features, "someflag", custom)
  {
    assert "someflag" + "=" + "false" == "someflag=false";
    ShortcutDocument(reg, validate, "someflag", "false");
  }

  /** The document `Flag=true` parses without error, and the flag is enabled under any spelling of its name. */
  lemma TrueShortcutDocument(reg: Registry, validate: Validator, custom: SpecInstance -> bool)
    requires "true" in reg && reg["true"] == TrueSpecification
    requires validate("Flag", NewFeature(TrueSpecification)).None?
    ensures CreateSpec(reg, ["Flag=true"], validate).Provider?
    ensures IsEnabled(CreateSpec(reg, ["Flag=true"], validate).features, "flag", custom)
  {
    assert "Flag" + "=" + "true" == "Flag=true";
    ShortcutDocument(reg, validate, "Flag", "true");
    FlagSpellings();
    IsEnabledIgnoresCase(CreateSpec(reg, ["Flag=true"], validate).features, "Flag", "flag", custom);
  }

  lemma FlagSpellings()
    ensures Fold("Flag") == Fold("flag")
  {
    assert UpperAscii('F') == 'F' && UpperAscii('f') == 'F';
    assert forall i :: 1 <= i < 4 ==> "Flag"[i] == "flag"[i];
  }

  lemma UnknownSpecificationScan(reg: Registry)
    requires "b" !in reg
    ensures ParseAll(reg, ["a=b"]) == Some(Report(InitialState, MustHaveValidSpecification("b", 1)))
  {
    assert "a" + "=" + "b" == "a=b";
    OneLineDocument(reg, "a=b");
    TrimTrimmed("a");
    TrimTrimmed("b");
    DeclarationLine(InitialState, reg, "a", "b", 1);
  }

  /** The document `a=b` with no specification registered as "b" fails with one message naming b and line 1. */
  lemma UnknownSpecificationDocument(reg: Registry, validate: Validator)
    requires "b" !in reg
    ensures CreateSpec(reg, ["a=b"], validate) == IncorrectTextFile([MustHaveValidSpecification("b", 1)])
  {
    var st := Report(InitialState, MustHaveValidSpecification("b", 1));
    UnknownSpecificationScan(reg);
    CreateFromScan(reg, ["a=b"], validate, st);
  }
}
