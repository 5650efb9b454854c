/**
 Which configured key governs a request: twice implemented, once over a sorted
 list of candidates and once as a running maximum over an unordered map.
 */
module KeyResolution {
  import opened Base
  import opened Sorting

  const DEFAULT := "default"

  /** `isPathPrefix`: a prefix that ends at a segment boundary. */
  predicate IsPathPrefix(prefix: string, key: string) {
    prefix <= key && (|key| == |prefix| || key[|prefix|] == '/')
  }

  /** The same test as the other resolver writes it. */
  predicate Governs(candidate: string, key: string) {
    key == candidate || candidate + "/" <= key
  }

  lemma SameTest(c: string, key: string)
    ensures Governs(c, key) <==> IsPathPrefix(c, key)
  {
    if c <= key && |key| > |c| && key[|c|] == '/' {
      assert key[..|c| + 1] == c + "/";
    }
    if c + "/" <= key {
      assert key[..|c|] == c && key[|c|] == (c + "/")[|c|];
    }
  }

  predicate LongerFirst(a: string, b: string) {
    |a| >= |b|
  }

  // A configured key, other than the default, that is a path prefix of `key`.
  predicate Candidate(keys: set<string>, c: string, key: string) {
    c in keys && c != DEFAULT && IsPathPrefix(c, key)
  }

  // The choice a reader of the documentation expects: the key itself, else its
  // longest configured path prefix, else the default.
  ghost predicate Chosen(keys: set<string>, key: string, choice: Option<string>) {
    if key in keys then choice == Some(key)
    else if exists c :: Candidate(keys, c, key) then
      choice.Some? && Candidate(keys, choice.value, key) && forall c :: Candidate(keys, c, key) ==> |c| <= |choice.value|
    else choice == if DEFAULT in keys then Some(DEFAULT) else None
  }

  /** The longest path prefix is unique, so the choice is. */
  lemma ChosenUnique(keys: set<string>, key: string, a: Option<string>, b: Option<string>)
    requires Chosen(keys, key, a) && Chosen(keys, key, b)
    ensures a == b
  {
    if key !in keys && exists c :: Candidate(keys, c, key) {
      assert key[..|a.value|] == a.value && key[..|b.value|] == b.value;
    }
  }

  /** The configured keys but the default, longest first, keys of one length in any order. */
  method LongestFirst(keys: set<string>) returns (sorted: seq<string>)
    ensures Sorted(sorted, LongerFirst)
    ensures forall k :: k in sorted <==> k in keys && k != DEFAULT
  {
    var candidates := [];
    var pending := keys;
    while pending != {}
      invariant pending <= keys
      invariant forall k :: k in candidates <==> k in keys - pending && k != DEFAULT
      decreases pending
    {
      var k :| k in pending;
      pending := pending - {k};
      if k == DEFAULT {
        continue;
      }
      candidates := candidates + [k];
    }
    sorted := Sort(candidates, LongerFirst);
    forall k ensures k in sorted <==> k in candidates {
      assert k in sorted <==> k in multiset(sorted);
      assert k in candidates <==> k in multiset(candidates);
    }
  }

  lemma FirstMatch(keys: set<string>, sorted: seq<string>, i: nat, key: string)
    requires Sorted(sorted, LongerFirst) && forall k :: k in sorted <==> k in keys && k != DEFAULT
    requires i < |sorted| && IsPathPrefix(sorted[i], key)
    requires forall j :: 0 <= j < i ==> !IsPathPrefix(sorted[j], key)
    ensures Candidate(keys, sorted[i], key) && forall c :: Candidate(keys, c, key) ==> |c| <= |sorted[i]|
  {
    hide IsPathPrefix;
    forall c | Candidate(keys, c, key) ensures |c| <= |sorted[i]| {
      assert c in sorted;
      var j :| 0 <= j < |sorted| && sorted[j] == c;
      assert i < j ==> LongerFirst(sorted[i], sorted[j]);
    }
    assert sorted[i] in sorted;
  }

  /** `ResolveKeyConfig`: candidates sorted by length, ties in any order, first match. */
  method ResolveKeyConfig<V>(config: map<string, V>, key: string) returns (choice: Option<string>)
    ensures Chosen(config.Keys, key, choice)
  {
    if key in config {
      return Some(key);
    }
    var sorted := LongestFirst(config.Keys);
    hide IsPathPrefix;
    for i := 0 to |sorted|
      invariant forall j :: 0 <= j < i ==> !IsPathPrefix(sorted[j], key)
    {
      if IsPathPrefix(sorted[i], key) {
        FirstMatch(config.Keys, sorted, i, key);
        return Some(sorted[i]);
      }
    }
    assert forall c :: Candidate(config.Keys, c, key) ==> c in sorted;
    if DEFAULT in config {
      return Some(DEFAULT);
    }
    return None;
  }

  // What the running maximum settles on: as `Chosen`, except that it starts from
  // the empty string and so never picks a key of that name as a prefix.
  ghost predicate ChosenNonEmpty(keys: set<string>, key: string, choice: Option<string>) {
    if key in keys then choice == Some(key) else Chosen(keys - {""}, key, choice)
  }

  /** `authChain`: the longest governing key met so far, in any order of the map. */
  method AuthChain<V>(chains: map<string, V>, key: string) returns (choice: Option<string>)
    ensures ChosenNonEmpty(chains.Keys, key, choice)
  {
    if key in chains {
      return Some(key);
    }
    var best := "";
    var pending := chains.Keys;
    while pending != {}
      invariant pending <= chains.Keys
      invariant best != "" ==> Candidate(chains.Keys, best, key)
      invariant forall c :: Candidate(chains.Keys - pending, c, key) ==> |c| <= |best|
      decreases pending
    {
      var candidate :| candidate in pending;
      pending := pending - {candidate};
      SameTest(candidate, key);
      if candidate != DEFAULT && Governs(candidate, key) && |candidate| > |best| {
        best := candidate;
      }
    }
    ghost var named := chains.Keys - {""};
    assert forall c :: Candidate(named, c, key) ==> Candidate(chains.Keys - pending, c, key);
    if best != "" {
      assert Candidate(named, best, key);
      return Some(best);
    }
    if DEFAULT in chains {
      return Some(DEFAULT);
    }
    return None;
  }

  // The one case in which the two part ways: a key named "" is configured, the
  // request starts with a slash, and nothing else governs it.
  predicate EmptyNameGoverns(keys: set<string>, key: string) {
    && "" in keys && key !in keys && key != "" && key[0] == '/'
    && forall c :: c in keys ==> !(c != "" && c != DEFAULT && IsPathPrefix(c, key))
  }

  /**
   Over one set of configured keys the authentication and the policy of a request
   come from the same key, for every order in which map and sort may present the
   keys, exactly outside that case.
   */
  lemma ResolversAgreeExactly(keys: set<string>, key: string, policy: Option<string>, auth: Option<string>)
    requires Chosen(keys, key, policy) && ChosenNonEmpty(keys, key, auth)
    ensures policy == auth <==> !EmptyNameGoverns(keys, key)
  {
    var named := keys - {""};
    if key !in keys {
      if EmptyNameGoverns(keys, key) {
        assert Candidate(keys, "", key);
        assert forall c :: Candidate(keys, c, key) ==> c == "";
        assert forall c :: !Candidate(named, c, key);
      } else if c :| Candidate(named, c, key) {
        assert Candidate(keys, c, key);
        assert Candidate(keys, auth.value, key);
        assert |policy.value| > 0;
        assert Candidate(named, policy.value, key);
        ChosenUnique(named, key, policy, auth);
      } else {
        assert forall c :: c in keys && c != "" && c != DEFAULT && IsPathPrefix(c, key) ==> Candidate(named, c, key);
        assert !Candidate(keys, "", key);
        assert forall c :: Candidate(keys, c, key) ==> Candidate(named, c, key);
        ChosenUnique(keys, key, policy, auth);
      }
    }
  }
}
