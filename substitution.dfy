/**
 * The two ways the rename applies its ordered rules to a string.
 *
 * File contents: every rule runs, in list order, on the output of the
 * previous one (a left fold of replace-all).
 *
 * Base names: the same fold, except that a rule runs only if the ORIGINAL
 * base name contains its token; a token introduced by an earlier rule does
 * not switch a later rule on.
 */
module Substitution {
  import opened Text
  import opened Mappings

  /** The rules of `ms` applied in order to `s`, each to the previous result. */
  function ApplyAll(s: string, ms: seq<Mapping>): string
    requires ValidMappings(ms)
    decreases |ms|
  {
    if ms == [] then s
    else
      var m := ms[|ms| - 1];
      ReplaceAll(ApplyAll(s, ms[..|ms| - 1]), m.token, m.replacement)
  }

  /**
   * The rules of `ms` applied in order starting from `s`, where rule `m` is
   * skipped when `original` does not contain `m.token`.
   */
  function ApplyGuarded(original: string, ms: seq<Mapping>): string
    requires ValidMappings(ms)
    decreases |ms|
  {
    if ms == [] then original
    else
      var m := ms[|ms| - 1];
      var prev := ApplyGuarded(original, ms[..|ms| - 1]);
      if Contains(original, m.token) then ReplaceAll(prev, m.token, m.replacement) else prev
  }

  lemma ValidAppend(ms1: seq<Mapping>, ms2: seq<Mapping>)
    requires ValidMappings(ms1) && ValidMappings(ms2)
    ensures ValidMappings(ms1 + ms2)
  {
    forall i | 0 <= i < |ms1 + ms2| ensures LiteralMapping((ms1 + ms2)[i]) {
      if i >= |ms1| {
        assert (ms1 + ms2)[i] == ms2[i - |ms1|];
      }
    }
  }

  /** Running two lists of rules one after the other is running their concatenation. */
  lemma {:induction false} ApplyAllAppend(s: string, ms1: seq<Mapping>, ms2: seq<Mapping>)
    requires ValidMappings(ms1) && ValidMappings(ms2)
    ensures ValidMappings(ms1 + ms2)
    ensures ApplyAll(s, ms1 + ms2) == ApplyAll(ApplyAll(s, ms1), ms2)
    decreases |ms2|
  {
    ValidAppend(ms1, ms2);
    if ms2 == [] {
      assert ms1 + ms2 == ms1;
    } else {
      var init := ms2[..|ms2| - 1];
      var m := ms2[|ms2| - 1];
      assert ValidMappings(init);
      ApplyAllAppend(s, ms1, init);
      assert (ms1 + ms2)[..|ms1 + ms2| - 1] == ms1 + init;
      assert (ms1 + ms2)[|ms1 + ms2| - 1] == m;
    }
  }

  /** The content rewrite is the left fold: the first rule runs first, the rest on its output. */
  lemma ApplyAllFirst(s: string, m: Mapping, ms: seq<Mapping>)
    requires LiteralMapping(m) && ValidMappings(ms)
    ensures ValidMappings([m] + ms)
    ensures ApplyAll(s, [m] + ms) == ApplyAll(ReplaceAll(s, m.token, m.replacement), ms)
  {
    ApplyAllAppend(s, [m], ms);
    assert ApplyAll(s, [m]) == ReplaceAll(ApplyAll(s, []), m.token, m.replacement);
  }

  /** A string in which no token of any rule occurs comes out of the rules unchanged. */
  lemma {:induction false} ApplyAllNoTokens(s: string, ms: seq<Mapping>)
    requires ValidMappings(ms)
    requires forall i :: 0 <= i < |ms| ==> !Contains(s, ms[i].token)
    ensures ApplyAll(s, ms) == s
    decreases |ms|
  {
    if ms != [] {
      ApplyAllNoTokens(s, ms[..|ms| - 1]);
    }
  }

  /** The same holds for the base-name variant, whose guards then skip every rule. */
  lemma {:induction false} ApplyGuardedNoTokens(s: string, ms: seq<Mapping>)
    requires ValidMappings(ms)
    requires forall i :: 0 <= i < |ms| ==> !Contains(s, ms[i].token)
    ensures ApplyGuarded(s, ms) == s
    decreases |ms|
  {
    if ms != [] {
      ApplyGuardedNoTokens(s, ms[..|ms| - 1]);
    }
  }

  /**
   * The base-name variant agrees with the content fold as long as every
   * rule it skips would have changed nothing anyway, i.e. its token does
   * not occur in the running result either.
   */
  lemma {:induction false} GuardedAgreesWithFold(original: string, ms: seq<Mapping>)
    requires ValidMappings(ms)
    requires forall i :: 0 <= i < |ms| ==>
      Contains(original, ms[i].token) || !Contains(ApplyAll(original, ms[..i]), ms[i].token)
    ensures ApplyGuarded(original, ms) == ApplyAll(original, ms)
    decreases |ms|
  {
    if ms != [] {
      var n := |ms| - 1;
      forall i | 0 <= i < n
        ensures Contains(original, ms[..n][i].token)
             || !Contains(ApplyAll(original, ms[..n][..i]), ms[..n][i].token)
      {
        assert ms[..n][..i] == ms[..i];
      }
      GuardedAgreesWithFold(original, ms[..n]);
    }
  }

  /** In particular both variants agree when the original contains every token. */
  lemma GuardedAllPresent(original: string, ms: seq<Mapping>)
    requires ValidMappings(ms)
    requires forall i :: 0 <= i < |ms| ==> Contains(original, ms[i].token)
    ensures ApplyGuarded(original, ms) == ApplyAll(original, ms)
  {
    GuardedAgreesWithFold(original, ms);
  }

  /** Applying rules whose replacements lack a character never introduces that character. */
  lemma {:induction false} ApplyAllKeepsOut(s: string, ms: seq<Mapping>, c: char)
    requires ValidMappings(ms)
    requires c !in s
    requires forall i :: 0 <= i < |ms| ==> c !in ms[i].replacement
    ensures c !in ApplyAll(s, ms)
    decreases |ms|
  {
    if ms != [] {
      ApplyAllKeepsOut(s, ms[..|ms| - 1], c);
    }
  }

  /** The same for the base-name variant. */
  lemma {:induction false} ApplyGuardedKeepsOut(s: string, ms: seq<Mapping>, c: char)
    requires ValidMappings(ms)
    requires c !in s
    requires forall i :: 0 <= i < |ms| ==> c !in ms[i].replacement
    ensures c !in ApplyGuarded(s, ms)
    decreases |ms|
  {
    if ms != [] {
      ApplyGuardedKeepsOut(s, ms[..|ms| - 1], c);
    }
  }

  /** Rules interact: swapping two rules can change the result. */
  lemma OrderMatters()
    ensures var ab := Mapping("a", "b");
            var bc := Mapping("b", "c");
            && ValidMappings([ab, bc]) && ValidMappings([bc, ab])
            && ApplyAll("a", [ab, bc]) == "c"
            && ApplyAll("a", [bc, ab]) == "b"
  {
    var ab := Mapping("a", "b");
    var bc := Mapping("b", "c");
    assert [ab, bc][..1] == [ab];
    assert [bc, ab][..1] == [bc];
    assert ApplyAll("a", [ab]) == "b";
    assert ApplyAll("a", [bc]) == "a";
  }

  /** A string that is exactly the token is replaced as a whole. */
  lemma ReplaceWhole(tok: string, rep: string)
    requires tok != []
    ensures ReplaceAll(tok, tok, rep) == rep
  {
    assert ReplaceAll(tok, tok, rep) == rep + ReplaceAll(tok[|tok|..], tok, rep);
  }

  lemma ExampleRulesValid()
    ensures ValidMappings([Mapping("foo", "Bar"), Mapping("Bar", "Qux")])
  {
    assert IsLiteral("foo") by {
      assert "foo"[1..] == "oo" && "oo"[1..] == "o" && "o"[1..] == "";
      assert IsLiteral("o") && IsLiteral("oo");
    }
    assert IsLiteral("Bar") by {
      assert "Bar"[1..] == "ar" && "ar"[1..] == "r" && "r"[1..] == "";
      assert IsLiteral("r") && IsLiteral("ar");
    }
  }

  /**
   * The two variants differ when an earlier rule introduces a later token:
   * with the rules foo -> Bar, Bar -> Qux, the base name `foo` becomes `Bar`
   * while the content `foo` becomes `Qux`.
   */
  lemma GuardedDiffersFromFold()
    ensures var ms := [Mapping("foo", "Bar"), Mapping("Bar", "Qux")];
            && ValidMappings(ms)
            && ApplyGuarded("foo", ms) == "Bar"
            && ApplyAll("foo", ms) == "Qux"
  {
    var ms := [Mapping("foo", "Bar"), Mapping("Bar", "Qux")];
    ExampleRulesValid();
    ReplaceWhole("foo", "Bar");
    ReplaceWhole("Bar", "Qux");
    assert ms[..1] == [Mapping("foo", "Bar")];
    assert ApplyAll("foo", ms[..1]) == "Bar";
    assert ApplyGuarded("foo", ms[..1]) == "Bar";
    assert !Contains("foo"[1..], "Bar");
  }

  lemma AppRuleValid()
    ensures ValidMappings([Mapping("app", "myapp")])
  {
    assert IsLiteral("app") by {
      assert "app"[1..] == "pp" && "pp"[1..] == "p" && "p"[1..] == "";
      assert IsLiteral("p") && IsLiteral("pp");
    }
  }

  /** The rule app -> myapp applied once and twice to `app`. */
  lemma AppRuleSteps()
    ensures ReplaceAll("app", "app", "myapp") == "myapp"
    ensures ReplaceAll("myapp", "app", "myapp") == "mymyapp"
  {
    ReplaceWhole("app", "myapp");
    assert "myapp"[..3] != "app" && "myapp"[1..] == "yapp";
    assert "yapp"[..3] != "app" && "yapp"[1..] == "app";
  }

  /** The rule app -> myapp applied to `app.ts`. */
  lemma AppRuleNameOnce()
    ensures ReplaceAll("app.ts", "app", "myapp") == "myapp.ts"
  {
    assert "ts"[..] == "ts";
    assert ".ts"[..3] != "app" && ".ts"[1..] == "ts";
    assert ReplaceAll(".ts", "app", "myapp") == ".ts";
    assert "app.ts"[..3] == "app" && "app.ts"[3..] == ".ts";
  }

  /** The rule app -> myapp applied to `myapp.ts`. */
  lemma AppRuleNameTwice()
    ensures ReplaceAll("myapp.ts", "app", "myapp") == "mymyapp.ts"
  {
    AppRuleNameOnce();
    assert "yapp.ts"[..3] != "app" && "yapp.ts"[..1] == "y" && "yapp.ts"[1..] == "app.ts";
    ReplaceAllSkipsFirst("yapp.ts", "app", "myapp");
    assert "y" + "myapp.ts" == "ymyapp.ts";
    assert "myapp.ts"[..3] != "app" && "myapp.ts"[..1] == "m" && "myapp.ts"[1..] == "yapp.ts";
    ReplaceAllSkipsFirst("myapp.ts", "app", "myapp");
    assert "m" + "ymyapp.ts" == "mymyapp.ts";
  }

  /** The guarded rewrite with the rule app -> myapp, on `app.ts` and on `myapp.ts`. */
  lemma AppRuleGuarded(ms: seq<Mapping>)
    requires ms == [Mapping("app", "myapp")]
    ensures ValidMappings(ms)
    ensures ApplyGuarded("app.ts", ms) == "myapp.ts"
    ensures ApplyGuarded("myapp.ts", ms) == "mymyapp.ts"
  {
    AppRuleValid();
    AppRuleNameOnce();
    AppRuleNameTwice();
    assert ms[..0] == [];
    assert StartsWith("app.ts", "app");
    assert Contains("myapp.ts", "app");
  }

  /**
   * Running the rules again on their own output is not a no-op when a new
   * name contains an old one: with the single rule app -> myapp the text
   * `app` becomes `myapp` and then `mymyapp`, and the base name `app.ts`
   * becomes `myapp.ts` and then `mymyapp.ts`.
   */
  lemma RerunRewritesAgain()
    ensures var ms := [Mapping("app", "myapp")];
      && ValidMappings(ms)
      && ApplyAll("app", ms) == "myapp"
      && ApplyAll(ApplyAll("app", ms), ms) == "mymyapp"
      && ApplyGuarded("app.ts", ms) == "myapp.ts"
      && ApplyGuarded(ApplyGuarded("app.ts", ms), ms) == "mymyapp.ts"
  {
    var ms := [Mapping("app", "myapp")];
    AppRuleGuarded(ms);
    AppRuleSteps();
    assert ms[..0] == [];
  }

  /** The content pass of src/rename-workspace.ts: every rule, in order, on the running text. */
  method RewriteContent(content: string, ms: seq<Mapping>) returns (updated: string)
    requires ValidMappings(ms)
    ensures updated == ApplyAll(content, ms)
  {
    updated := content;
    for i := 0 to |ms|
      invariant updated == ApplyAll(content, ms[..i])
    {
      assert ms[..i + 1][..i] == ms[..i];
      updated := ReplaceAll(updated, ms[i].token, ms[i].replacement);
    }
    assert ms[..|ms|] == ms;
  }

  /** The base-name pass: a rule runs only if the original base name contains its token. */
  method RewriteBaseName(baseName: string, ms: seq<Mapping>) returns (newBaseName: string)
    requires ValidMappings(ms)
    ensures newBaseName == ApplyGuarded(baseName, ms)
  {
    newBaseName := baseName;
    for i := 0 to |ms|
      invariant newBaseName == ApplyGuarded(baseName, ms[..i])
    {
      assert ms[..i + 1][..i] == ms[..i];
      if Contains(baseName, ms[i].token) {
        newBaseName := ReplaceAll(newBaseName, ms[i].token, ms[i].replacement);
      }
    }
    assert ms[..|ms|] == ms;
  }
}
