/**
 * The commit classifier of src/version_calculator.rs: it counts the commit
 * messages by kind and picks the most severe bump any of them calls for.
 * Only the `feat` prefix is recognised, so the major counter never moves and
 * the result is `Minor` when some message starts with `feat` and `Patch`
 * otherwise.
 */
module VersionCalculator {

  /** The bump kinds, most severe first. */
  datatype VersionType = Major | Minor | Patch

  /** Rust's `message.starts_with("feat")`, compared character by character and case-sensitively. */
  predicate IsFeature(message: string) {
    |message| >= 4 && message[..4] == "feat"
  }

  /** The number of feature messages, counted front to back as the loop does. */
  function FeatureCount(messages: seq<string>): (n: nat)
    ensures n <= |messages|
  {
    if messages == [] then 0
    else FeatureCount(messages[..|messages| - 1]) + (if IsFeature(messages[|messages| - 1]) then 1 else 0)
  }

  /** The bump the history calls for: `Minor` if any message is a feature, otherwise `Patch`. */
  function Classification(messages: seq<string>): VersionType {
    if exists i | 0 <= i < |messages| :: IsFeature(messages[i]) then Minor else Patch
  }

  /**
   * `calculate_version_type`: one pass with three counters, then the
   * severity-wins choice. Every input, the empty one included, yields exactly
   * one kind, and it is never `Major`.
   */
  method CalculateVersionType(messages: seq<string>) returns (r: VersionType)
    ensures r == Classification(messages)
    ensures r != Major
  {
    var numMajor: nat := 0;
    var numMinor: nat := 0;
    var numPatch: nat := 0;
    for k := 0 to |messages|
      invariant numMajor == 0
      invariant numMinor == FeatureCount(messages[..k])
      invariant numMinor + numPatch == k
    {
      assert messages[..k + 1][..k] == messages[..k];
      if IsFeature(messages[k]) {
        numMinor := numMinor + 1;
      } else {
        numPatch := numPatch + 1;
      }
    }
    assert messages[..|messages|] == messages;
    FeatureCountPositive(messages);
    if numMajor > 0 {
      return Major;
    } else if numMinor > 0 {
      return Minor;
    }
    return Patch;
  }

  /** The count is positive exactly when some message is a feature. */
  lemma {:induction false} FeatureCountPositive(messages: seq<string>)
    ensures FeatureCount(messages) > 0 <==> exists i | 0 <= i < |messages| :: IsFeature(messages[i])
  {
    if messages != [] {
      var init := messages[..|messages| - 1];
      FeatureCountPositive(init);
      if exists i | 0 <= i < |init| :: IsFeature(init[i]) {
        var i :| 0 <= i < |init| && IsFeature(init[i]);
        assert messages[i] == init[i];
      }
      if exists i | 0 <= i < |messages| :: IsFeature(messages[i]) {
        var i :| 0 <= i < |messages| && IsFeature(messages[i]);
        if i < |init| {
          assert init[i] == messages[i];
        }
      }
    }
  }

  /** The count over a concatenation is the sum of the counts. */
  lemma {:induction false} FeatureCountAppend(a: seq<string>, b: seq<string>)
    ensures FeatureCount(a + b) == FeatureCount(a) + FeatureCount(b)
    decreases |b|
  {
    if b == [] {
      assert a + b == a;
    } else {
      var b' := b[..|b| - 1];
      assert (a + b)[..|a + b| - 1] == a + b';
      FeatureCountAppend(a, b');
    }
  }

  /** The counts, and so the result, depend only on which messages occur how often, not on their order. */
  lemma {:induction false} FeatureCountPermutation(a: seq<string>, b: seq<string>)
    requires multiset(a) == multiset(b)
    ensures FeatureCount(a) == FeatureCount(b)
    decreases |a|
  {
    if a != [] {
      var x := a[|a| - 1];
      var a' := a[..|a| - 1];
      assert a == a' + [x];
      assert x in multiset(b);
      var j :| 0 <= j < |b| && b[j] == x;
      var b' := b[..j] + b[j + 1..];
      assert b == b[..j] + [x] + b[j + 1..];
      assert multiset(a') == multiset(b') by {
        assert multiset(a) == multiset(a') + multiset{x};
        assert multiset(b) == multiset(b[..j]) + multiset{x} + multiset(b[j + 1..]);
        assert multiset(b') == multiset(b[..j]) + multiset(b[j + 1..]);
        assert multiset(b) == multiset(b') + multiset{x};
        assert multiset(a') == multiset(a) - multiset{x};
        assert multiset(b') == multiset(b) - multiset{x};
      }
      FeatureCountPermutation(a', b');
      FeatureCountAppend(a', [x]);
      FeatureCountAppend(b[..j], [x]);
      FeatureCountAppend(b[..j] + [x], b[j + 1..]);
      FeatureCountAppend(b[..j], b[j + 1..]);
      assert FeatureCount([x]) == (if IsFeature(x) then 1 else 0) by {
        assert [x][..0] == [];
      }
    } else {
      assert |b| == |multiset(b)| == 0;
    }
  }

  lemma ClassificationPermutation(a: seq<string>, b: seq<string>)
    requires multiset(a) == multiset(b)
    ensures Classification(a) == Classification(b)
  {
    FeatureCountPermutation(a, b);
    FeatureCountPositive(a);
    FeatureCountPositive(b);
  }

  /** An empty history is a patch bump. */
  lemma EmptyIsPatch()
    ensures Classification([]) == Patch
  {
  }

  /** More commits can raise `Patch` to `Minor` but never lower `Minor` to `Patch`. */
  lemma {:induction false} Monotonic(messages: seq<string>, more: seq<string>)
    ensures Classification(messages) == Minor ==> Classification(messages + more) == Minor
    ensures Classification(messages + more) == Patch ==> Classification(messages) == Patch
  {
    FeatureCountAppend(messages, more);
    FeatureCountPositive(messages);
    FeatureCountPositive(messages + more);
  }

  /** The prefix test is case-sensitive and looks only at the first four characters. */
  lemma PrefixExamples()
    ensures IsFeature("feature: x")
    ensures IsFeature("feat: add widget")
    ensures !IsFeature("Feat: x")
    ensures !IsFeature("fix: feat")
    ensures !IsFeature("fea")
  {
    assert "feature: x"[..4] == "feat";
    assert "feat: add widget"[..4] == "feat";
    assert "Feat: x"[0] != "feat"[0];
    assert "fix: feat"[1] != "feat"[1];
  }

  /** One feature among other commits is a minor bump; a fix alone, a patch bump. */
  lemma ClassificationExamples()
    ensures Classification(["fix: bug", "feat: add widget", "chore: cleanup"]) == Minor
    ensures Classification(["fix: bug", "Feat: not a feature"]) == Patch
  {
    PrefixExamples();
    var h := ["fix: bug", "feat: add widget", "chore: cleanup"];
    assert IsFeature(h[1]);
    var g := ["fix: bug", "Feat: not a feature"];
    assert g[0][1] != "feat"[1] && g[1][0] != "feat"[0];
    assert !IsFeature(g[0]) && !IsFeature(g[1]);
  }
}
