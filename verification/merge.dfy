/**
 * The two ways the controller combines configurations: the recursive merge
 * applied once at construction (`deepMerge` in src/controller/index.ts) and
 * the shallow, top-level overwrite applied by `modifyConfig`.
 */
module Merge {
  import opened Wrappers
  import opened Values

  /**
   * The precondition under which `deepMerge` is well behaved: wherever the
   * override holds a record at a key the target also has, the target holds a
   * record there too, all the way down. (Otherwise the JavaScript either
   * throws on `in` applied to a primitive or copies a string's characters.)
   */
  predicate Compatible(t: Config, s: Config)
    decreases Rec(s)
  {
    forall k :: k in s && k in t && s[k].Rec? ==>
      t[k].Rec? && Compatible(t[k].fields, s[k].fields)
  }

  /** `deepMerge(t, s)`: the override `s` merged recursively over the target `t`. */
  function DeepMerge(t: Config, s: Config): (r: Config)
    requires Compatible(t, s)
    decreases Rec(s)
    ensures r.Keys == t.Keys + s.Keys
    ensures forall k :: k in t && k !in s ==> r[k] == t[k]
    ensures forall k :: k in s && (k !in t || !s[k].Rec?) ==> r[k] == s[k]
    ensures forall k :: k in s && k in t && s[k].Rec? ==> t[k].Rec? && r[k].Rec?
  {
    map k | k in t.Keys + s.Keys ::
      if k !in s then t[k]
      else if k in t && s[k].Rec? then Rec(DeepMerge(t[k].fields, s[k].fields))
      else s[k]
  }

  /**
   * Where the override holds a record at a key the target has, the result
   * there is a record naming every nested key of both: a nested key only
   * in the target keeps its value, and a nested primitive of the override wins.
   */
  lemma DeepMergeAtSharedRecord(t: Config, s: Config, k: string)
    requires Compatible(t, s)
    requires k in s && k in t && s[k].Rec?
    ensures DeepMerge(t, s)[k].Rec?
    ensures DeepMerge(t, s)[k].fields.Keys == t[k].fields.Keys + s[k].fields.Keys
    ensures forall j :: j in t[k].fields && j !in s[k].fields ==>
      DeepMerge(t, s)[k].fields[j] == t[k].fields[j]
    ensures forall j :: j in s[k].fields && IsLeaf(s[k].fields[j]) ==>
      DeepMerge(t, s)[k].fields[j] == s[k].fields[j]
  {
  }

  /** The top-level copy `modifyConfig` makes: every key of `patch` replaces its old value whole. */
  function ShallowOverwrite(current: Config, patch: Config): (r: Config)
    ensures r.Keys == current.Keys + patch.Keys
    ensures forall k :: k in patch ==> r[k] == patch[k]
    ensures forall k :: k in current && k !in patch ==> r[k] == current[k]
  {
    current + patch
  }

  /** Every primitive the override sets at any depth is in the merged configuration. */
  lemma {:induction false} MergeKeepsOverrideLeaves(t: Config, s: Config, path: seq<string>)
    requires Compatible(t, s)
    requires Find(Rec(s), path).Some? && IsLeaf(Find(Rec(s), path).value)
    ensures Find(Rec(DeepMerge(t, s)), path) == Find(Rec(s), path)
    decreases |path|
  {
    var k := path[0];
    if k in t && s[k].Rec? {
      MergeKeepsOverrideLeaves(t[k].fields, s[k].fields, path[1..]);
    }
  }

  /** Every default value at a path the override leaves untouched survives the merge. */
  lemma {:induction false} MergeKeepsUntouchedDefaults(t: Config, s: Config, path: seq<string>)
    requires Compatible(t, s)
    requires Find(Rec(t), path).Some? && Untouched(Rec(s), path)
    ensures Find(Rec(DeepMerge(t, s)), path) == Find(Rec(t), path)
    decreases |path|
  {
    var k := path[0];
    if k in s {
      MergeKeepsUntouchedDefaults(t[k].fields, s[k].fields, path[1..]);
    }
  }

  /**
   * The merge invents nothing: every primitive in the result was set by the
   * override, or is a default at a path the override leaves untouched.
   */
  lemma {:induction false} MergeLeavesHaveASource(t: Config, s: Config, path: seq<string>)
    requires Compatible(t, s)
    requires Find(Rec(DeepMerge(t, s)), path).Some?
    requires IsLeaf(Find(Rec(DeepMerge(t, s)), path).value)
    ensures || Find(Rec(s), path) == Find(Rec(DeepMerge(t, s)), path)
            || (Find(Rec(t), path) == Find(Rec(DeepMerge(t, s)), path) && Untouched(Rec(s), path))
    decreases |path|
  {
    var k := path[0];
    if k in s && k in t && s[k].Rec? {
      MergeLeavesHaveASource(t[k].fields, s[k].fields, path[1..]);
    }
  }

  /**
   * The merged configuration, primitive by primitive: a primitive sits at a
   * path of the result iff the override sets it there, or the defaults hold
   * it there and the override leaves that path untouched.
   */
  lemma MergeLeaves(t: Config, s: Config, path: seq<string>, v: Value)
    requires Compatible(t, s)
    requires IsLeaf(v)
    ensures Find(Rec(DeepMerge(t, s)), path) == Some(v) <==>
      (Find(Rec(s), path) == Some(v) || (Find(Rec(t), path) == Some(v) && Untouched(Rec(s), path)))
  {
    if Find(Rec(DeepMerge(t, s)), path) == Some(v) {
      MergeLeavesHaveASource(t, s, path);
    }
    if Find(Rec(s), path) == Some(v) {
      MergeKeepsOverrideLeaves(t, s, path);
    } else if Find(Rec(t), path) == Some(v) && Untouched(Rec(s), path) {
      MergeKeepsUntouchedDefaults(t, s, path);
    }
  }

  /** Merging an empty override returns the defaults exactly. */
  lemma MergeEmptyOverride(t: Config)
    ensures Compatible(t, map[])
    ensures DeepMerge(t, map[]) == t
  {
  }

  /** Every configuration is compatible with itself. */
  lemma {:induction false} CompatibleWithSelf(c: Config)
    ensures Compatible(c, c)
    decreases Rec(c)
  {
    forall k | k in c && c[k].Rec? {
      CompatibleWithSelf(c[k].fields);
    }
  }

  /** Merging a configuration over itself changes nothing. */
  lemma {:induction false} MergeWithSelf(c: Config)
    ensures Compatible(c, c)
    ensures DeepMerge(c, c) == c
    decreases Rec(c)
  {
    CompatibleWithSelf(c);
    forall k | k in c && c[k].Rec? {
      MergeWithSelf(c[k].fields);
    }
  }

  /** The merged result stays compatible with the override that produced it. */
  lemma {:induction false} MergeStaysCompatible(t: Config, s: Config)
    requires Compatible(t, s)
    ensures Compatible(DeepMerge(t, s), s)
    decreases Rec(s)
  {
    var r := DeepMerge(t, s);
    forall k | k in s && s[k].Rec?
      ensures r[k].Rec? && Compatible(r[k].fields, s[k].fields)
    {
      if k in t {
        MergeStaysCompatible(t[k].fields, s[k].fields);
      } else {
        CompatibleWithSelf(s[k].fields);
      }
    }
  }

  /** Applying the same override a second time changes nothing. */
  lemma {:induction false} MergeIdempotent(t: Config, s: Config)
    requires Compatible(t, s)
    ensures Compatible(DeepMerge(t, s), s)
    ensures DeepMerge(DeepMerge(t, s), s) == DeepMerge(t, s)
    decreases Rec(s)
  {
    MergeStaysCompatible(t, s);
    var r := DeepMerge(t, s);
    forall k | k in s && s[k].Rec?
      ensures DeepMerge(r[k].fields, s[k].fields) == r[k].fields
    {
      if k in t {
        MergeIdempotent(t[k].fields, s[k].fields);
      } else {
        MergeWithSelf(s[k].fields);
      }
    }
  }

  /**
   * `s` covers `t` when every key of `t` appears in `s`, and, where both hold
   * records, the record in `s` covers the one in `t`.
   */
  predicate Covers(s: Config, t: Config)
    decreases Rec(s)
  {
    && t.Keys <= s.Keys
    && forall k :: k in t && t[k].Rec? && s[k].Rec? ==> Covers(s[k].fields, t[k].fields)
  }

  /** Merging an override over the target yields exactly the override iff it covers the target. */
  lemma {:induction false} MergeYieldsOverrideIffCovers(t: Config, s: Config)
    requires Compatible(t, s)
    ensures DeepMerge(t, s) == s <==> Covers(s, t)
    decreases Rec(s)
  {
    var r := DeepMerge(t, s);
    if Covers(s, t) {
      forall k | k in s && k in t && s[k].Rec?
        ensures r[k] == s[k]
      {
        MergeYieldsOverrideIffCovers(t[k].fields, s[k].fields);
      }
    }
    if r == s {
      forall k | k in t && t[k].Rec? && s[k].Rec?
        ensures Covers(s[k].fields, t[k].fields)
      {
        assert r[k] == s[k];
        MergeYieldsOverrideIffCovers(t[k].fields, s[k].fields);
      }
    }
  }

  /**
   * The shallow overwrite agrees with the deep merge exactly when every record
   * the patch sets over an existing record already covers it; anywhere else,
   * nested keys the patch omits are lost by the shallow overwrite.
   */
  lemma ShallowAgreesWithDeepIffCovering(current: Config, patch: Config)
    requires Compatible(current, patch)
    ensures ShallowOverwrite(current, patch) == DeepMerge(current, patch) <==>
      forall k :: k in patch && k in current && patch[k].Rec? ==>
        Covers(patch[k].fields, current[k].fields)
  {
    var sh := ShallowOverwrite(current, patch);
    var dm := DeepMerge(current, patch);
    forall k | k in patch && k in current && patch[k].Rec?
      ensures sh[k] == dm[k] <==> Covers(patch[k].fields, current[k].fields)
    {
      MergeYieldsOverrideIffCovers(current[k].fields, patch[k].fields);
    }
    if forall k :: k in patch && k in current && patch[k].Rec? ==>
        Covers(patch[k].fields, current[k].fields) {
      assert forall k :: k in sh ==> sh[k] == dm[k];
    }
  }

  /**
   * The asymmetry at one key: when both the current configuration and the
   * patch hold records at `k` and the patch omits the nested key `j`, the
   * shallow overwrite loses `j` while the deep merge keeps its old value.
   */
  lemma ShallowDropsWhatDeepKeeps(current: Config, patch: Config, k: string, j: string)
    requires Compatible(current, patch)
    requires k in current && k in patch && current[k].Rec? && patch[k].Rec?
    requires j in current[k].fields && j !in patch[k].fields
    ensures Find(Rec(ShallowOverwrite(current, patch)), [k, j]) == None
    ensures Find(Rec(DeepMerge(current, patch)), [k, j]) == Some(current[k].fields[j])
  {
    var path := [k, j];
    assert path[1..] == [j] && [j][1..] == [];
    assert Find(current[k], [j]) == Find(current[k].fields[j], []);
    assert Find(Rec(current), path) == Some(current[k].fields[j]);
    assert Untouched(Rec(patch), path) by {
      assert Untouched(patch[k], path[1..]);
    }
    MergeKeepsUntouchedDefaults(current, patch, path);
  }
}
