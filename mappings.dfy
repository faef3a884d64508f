/**
 * The ordered substitution rules of the rename. Entry 0 maps the plain old
 * name to the plain new name; every further entry maps one `:`-separated
 * segment of the capitalised old name to the capitalised new name.
 */
module Mappings {
  import opened Text

  /** One substitution rule: every occurrence of `token` becomes `replacement`. */
  datatype Mapping = Mapping(token: string, replacement: string)

  /** Characters that would give a token a meaning beyond its literal text as a regular expression. */
  predicate IsRegExpMeta(c: char) {
    || c == '\\' || c == '^' || c == '$' || c == '.' || c == '|' || c == '?' || c == '*'
    || c == '+' || c == '(' || c == ')' || c == '[' || c == ']' || c == '{' || c == '}'
  }

  /** No character of `t` is a regular-expression metacharacter. */
  predicate IsLiteral(t: string)
    decreases |t|
  {
    t == [] || (!IsRegExpMeta(t[0]) && IsLiteral(t[1..]))
  }

  /**
   * The rules are modelled as literal replacements: each token is non-empty
   * and free of regular-expression metacharacters, and no replacement holds
   * the `$` that would start a substitution pattern.
   */
  predicate LiteralMapping(m: Mapping) {
    && m.token != []
    && IsLiteral(m.token)
    && '$' !in m.replacement
  }

  predicate ValidMappings(ms: seq<Mapping>) {
    forall i :: 0 <= i < |ms| ==> LiteralMapping(ms[i])
  }

  /** The tokens of a list of rules, in order. */
  function Tokens(ms: seq<Mapping>): seq<string> {
    seq(|ms|, i requires 0 <= i < |ms| => ms[i].token)
  }

  /**
   * The names the rules are built from are usable when the old name and
   * every `:`-separated segment of the capitalised old name are non-empty
   * literal tokens and neither new name holds a `$`.
   */
  predicate ValidNames(oldName: string, oldNameCapitalized: string,
                       newName: string, newNameCapitalized: string)
  {
    && oldName != [] && IsLiteral(oldName)
    && (forall seg :: seg in Split(oldNameCapitalized, ':') ==> seg != [] && IsLiteral(seg))
    && '$' !in newName && '$' !in newNameCapitalized
  }

  /**
   * `[oldName, ...oldNameCapitalized.split(":")]`, each name paired with the
   * plain new name at index 0 and with the capitalised new name elsewhere.
   */
  function BuildMappings(oldName: string, oldNameCapitalized: string,
                         newName: string, newNameCapitalized: string): (ms: seq<Mapping>)
    ensures |ms| == 1 + |Split(oldNameCapitalized, ':')|
    ensures |ms| == 2 + multiset(oldNameCapitalized)[':']
    ensures ms[0] == Mapping(oldName, newName)
    ensures forall i :: 1 <= i < |ms| ==>
      ms[i] == Mapping(Split(oldNameCapitalized, ':')[i - 1], newNameCapitalized)
    ensures forall i :: 1 <= i < |ms| ==> ':' !in ms[i].token
  {
    SplitCount(oldNameCapitalized, ':');
    SplitPartsFree(oldNameCapitalized, ':');
    var names := [oldName] + Split(oldNameCapitalized, ':');
    seq(|names|, i requires 0 <= i < |names| =>
      Mapping(names[i], if i == 0 then newName else newNameCapitalized))
  }

  /**
   * The rules after the first take the segments of the capitalised old name
   * in order, and joining their tokens with `:` gives that name back.
   */
  lemma SegmentsRoundTrip(oldName: string, oldNameCapitalized: string,
                          newName: string, newNameCapitalized: string)
    ensures var ms := BuildMappings(oldName, oldNameCapitalized, newName, newNameCapitalized);
      && Tokens(ms[1..]) == Split(oldNameCapitalized, ':')
      && Join(Tokens(ms[1..]), ':') == oldNameCapitalized
  {
    var ms := BuildMappings(oldName, oldNameCapitalized, newName, newNameCapitalized);
    var parts := Split(oldNameCapitalized, ':');
    assert |Tokens(ms[1..])| == |parts|;
    forall i | 0 <= i < |parts| ensures Tokens(ms[1..])[i] == parts[i] {
      assert ms[1..][i] == ms[i + 1];
    }
    JoinSplit(oldNameCapitalized, ':');
  }

  /** The segment tokens determine the capitalised old name: `split(":")` undoes joining them. */
  lemma {:induction false} SegmentsDetermineName(segments: seq<string>, oldName: string,
                                                 newName: string, newNameCapitalized: string)
    requires |segments| >= 1
    requires forall i :: 0 <= i < |segments| ==> ':' !in segments[i]
    ensures var ms := BuildMappings(oldName, Join(segments, ':'), newName, newNameCapitalized);
      Tokens(ms[1..]) == segments
  {
    SplitJoin(segments, ':');
    var ms := BuildMappings(oldName, Join(segments, ':'), newName, newNameCapitalized);
    forall i | 0 <= i < |segments| ensures Tokens(ms[1..])[i] == segments[i] {
      assert ms[1..][i] == ms[i + 1];
    }
  }

  /** Exactly the usable names give rules that are all literal replacements. */
  lemma ValidNamesIff(oldName: string, oldNameCapitalized: string,
                      newName: string, newNameCapitalized: string)
    ensures ValidNames(oldName, oldNameCapitalized, newName, newNameCapitalized)
        <==> ValidMappings(BuildMappings(oldName, oldNameCapitalized, newName, newNameCapitalized))
  {
    var ms := BuildMappings(oldName, oldNameCapitalized, newName, newNameCapitalized);
    var parts := Split(oldNameCapitalized, ':');
    if ValidMappings(ms) {
      assert LiteralMapping(ms[0]) && LiteralMapping(ms[1]);
      forall seg | seg in parts ensures seg != [] && IsLiteral(seg) {
        var j :| 0 <= j < |parts| && parts[j] == seg;
        assert LiteralMapping(ms[j + 1]);
      }
    }
    if ValidNames(oldName, oldNameCapitalized, newName, newNameCapitalized) {
      forall i | 1 <= i < |ms| ensures LiteralMapping(ms[i]) {
        assert parts[i - 1] in parts;
      }
    }
  }
}
