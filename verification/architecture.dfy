/**
 * The layering rule (`_validate_architecture`, app/states/state.py:522-531):
 * a file whose path contains "components" must not import a module whose
 * identifier contains "states".
 */
module Architecture {
  import opened Strings
  import opened OrderedDict
  import opened Graph

  const ComponentToken: string := "components"
  const StateToken: string := "states"

  predicate Violates(file: string, dep: string)
  {
    Contains(file, ComponentToken) && Contains(dep, StateToken)
  }

  /** The fixed message for one violating import. */
  function ViolationMessage(file: string, dep: string): string
  {
    "Violation: Component '" + file + "' imports state '" + dep + "'"
  }

  /** The violating (file, dependency) pairs of one entry, in dependency order. */
  function EntryViolations(file: string, deps: seq<string>): seq<(string, string)>
  {
    if |deps| == 0 then []
    else
      var last := deps[|deps| - 1];
      EntryViolations(file, deps[..|deps| - 1]) + (if Violates(file, last) then [(file, last)] else [])
  }

  /** All violating pairs: graph key order first, then each file's dependency order. */
  function ViolatingPairs(g: DependencyGraph): seq<(string, string)>
  {
    if |g| == 0 then []
    else ViolatingPairs(g[..|g| - 1]) + EntryViolations(g[|g| - 1].key, g[|g| - 1].value)
  }

  /** The message of each pair, in order. */
  function Messages(pairs: seq<(string, string)>): seq<string>
  {
    if |pairs| == 0 then [] else Messages(pairs[..|pairs| - 1]) + [ViolationMessage(pairs[|pairs| - 1].0, pairs[|pairs| - 1].1)]
  }

  /** Exactly one message per pair, at the pair's position. */
  lemma {:induction false} MessagesOnePerPair(pairs: seq<(string, string)>)
    ensures |Messages(pairs)| == |pairs|
    ensures forall i :: 0 <= i < |pairs| ==> Messages(pairs)[i] == ViolationMessage(pairs[i].0, pairs[i].1)
    decreases |pairs|
  {
    if |pairs| > 0 {
      MessagesOnePerPair(pairs[..|pairs| - 1]);
    }
  }

  lemma MessagesSnoc(a: seq<(string, string)>, b: seq<(string, string)>)
    requires |b| <= 1
    ensures Messages(a + b) == Messages(a) + Messages(b)
  {
    if |b| == 1 {
      assert (a + b)[..|a + b| - 1] == a;
    } else {
      assert a + b == a;
    }
  }

  /**
   * `_validate_architecture`: one message per violating (file, dependency)
   * pair, in graph order and then dependency order, and no other message.
   */
  method ValidateArchitecture(g: DependencyGraph) returns (violations: seq<string>)
    ensures violations == Messages(ViolatingPairs(g))
  {
    violations := [];
    var i := 0;
    while i < |g|
      invariant 0 <= i <= |g|
      invariant violations == Messages(ViolatingPairs(g[..i]))
    {
      var file, deps := g[i].key, g[i].value;
      var done := ViolatingPairs(g[..i]);
      assert g[..i + 1][..i] == g[..i];
      assert ViolatingPairs(g[..i + 1]) == done + EntryViolations(file, deps);
      if Contains(file, ComponentToken) {
        var j := 0;
        assert deps[..0] == [];
        assert done + EntryViolations(file, deps[..0]) == done;
        while j < |deps|
          invariant 0 <= j <= |deps|
          invariant violations == Messages(done + EntryViolations(file, deps[..j]))
        {
          var dep := deps[j];
          var found := if Violates(file, dep) then [(file, dep)] else [];
          assert deps[..j + 1][..j] == deps[..j];
          assert EntryViolations(file, deps[..j + 1]) == EntryViolations(file, deps[..j]) + found;
          assert done + EntryViolations(file, deps[..j + 1]) == (done + EntryViolations(file, deps[..j])) + found;
          MessagesSnoc(done + EntryViolations(file, deps[..j]), found);
          if Contains(dep, StateToken) {
            assert Messages(found) == [ViolationMessage(file, dep)];
            violations := violations + [ViolationMessage(file, dep)];
          } else {
            assert Messages(found) == [];
          }
          j := j + 1;
        }
        assert deps[..j] == deps;
      } else {
        NoComponentNoViolations(file, deps);
        assert done + [] == done;
      }
      i := i + 1;
    }
    assert g[..i] == g;
  }

  lemma {:induction false} NoComponentNoViolations(file: string, deps: seq<string>)
    requires !Contains(file, ComponentToken)
    ensures EntryViolations(file, deps) == []
    decreases |deps|
  {
    if |deps| > 0 {
      NoComponentNoViolations(file, deps[..|deps| - 1]);
    }
  }

  lemma {:induction false} EntryViolationsMembers(file: string, deps: seq<string>, p: (string, string))
    ensures p in EntryViolations(file, deps) <==> p.0 == file && p.1 in deps && Violates(file, p.1)
    decreases |deps|
  {
    if |deps| > 0 {
      var init := deps[..|deps| - 1];
      EntryViolationsMembers(file, init, p);
      assert deps == init + [deps[|deps| - 1]];
    }
  }

  /** A pair is reported exactly when some entry's file imports the dependency and the pair breaks the rule. */
  lemma {:induction false} ViolatingPairsMembers(g: DependencyGraph, file: string, dep: string)
    ensures (file, dep) in ViolatingPairs(g) <==>
      Violates(file, dep) && exists i :: 0 <= i < |g| && g[i].key == file && dep in g[i].value
    decreases |g|
  {
    if |g| > 0 {
      var init := g[..|g| - 1];
      var last := g[|g| - 1];
      ViolatingPairsMembers(init, file, dep);
      EntryViolationsMembers(last.key, last.value, (file, dep));
      assert forall i :: 0 <= i < |init| ==> init[i] == g[i];
      if exists i :: 0 <= i < |g| && g[i].key == file && dep in g[i].value {
        var i :| 0 <= i < |g| && g[i].key == file && dep in g[i].value;
        if i < |init| {
          assert init[i] == g[i];
        }
      }
    }
  }
}
