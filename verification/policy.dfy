/**
 * The security policies and what the cache's queries mean: how a
 * requested name is normalized and matched, how a lookup reorders the
 * cache, the rights decision over all matching policies, and the filtered
 * listings. `PolicyCache` performs these steps on the cache in place and
 * is proved to agree with the functions here.
 *
 * C strings are modelled as their characters before the terminating NUL
 * and a null pointer as `None`. The glob matcher and the parser of domain
 * names are parameters.
 */
module Policy {
  import opened Wrappers

  /** The largest `size_t` of a 64-bit build. */
  const SizeMax: nat := 0xFFFF_FFFF_FFFF_FFFF

  /** The size of the name buffer: names are cut to one less character. */
  const MagickPathExtent: nat := 4096

  /** The policy domain a policy without one carries. */
  const UndefinedDomain: int := 0

  /** The rights a policy grants, or a caller requests: the read, write and
    * execute bits of the rights mask. */
  datatype Rights = Rights(read: bool, write: bool, execute: bool)

  /** A cached policy. The domain is the parser's number for it. */
  datatype PolicyInfo = PolicyInfo(
    domain: int, rights: Rights, name: Option<string>, pattern: Option<string>,
    value: Option<string>, stealth: bool)

  /** Whether a subject matches a glob pattern. */
  type Glob = (Option<string>, Option<string>) -> bool

  /** Every string of a policy is in memory with its terminator, so its
    * length is below the largest `size_t`. */
  predicate Fits(p: PolicyInfo)
  {
    (p.name.Some? ==> |p.name.value| < SizeMax)
    && (p.pattern.Some? ==> |p.pattern.value| < SizeMax)
    && (p.value.Some? ==> |p.value.value| < SizeMax)
  }

  // ---------------------------------------------------------------------
  // Name normalization

  /** `isspace` in the C locale: space, tab, newline, vertical tab, form
    * feed and carriage return. */
  predicate IsSpace(c: char)
  {
    c == ' ' || 9 <= c as int <= 13
  }

  /** `tolower` in the C locale: only the ASCII capitals change. */
  function Lower(c: char): (l: char)
    ensures ('A' <= c <= 'Z') == (l != c)
  {
    if 'A' <= c <= 'Z' then (c as int + 32) as char else c
  }

  /** Two strings compare equal ignoring case. */
  predicate SameText(a: string, b: string)
  {
    |a| == |b| && forall i :: 0 <= i < |a| ==> Lower(a[i]) == Lower(b[i])
  }

  /** The name as copied into the fixed-size buffer, a null name as the
    * empty string: a prefix of the name, the whole name when it fits and
    * its first `MagickPathExtent - 1` characters otherwise. */
  function Truncated(name: Option<string>): (s: string)
    ensures |s| < MagickPathExtent
    ensures name.Some? && |name.value| < MagickPathExtent ==> s == name.value
    ensures name.Some? ==> s <= name.value
    ensures name.Some? && |name.value| >= MagickPathExtent ==> |s| == MagickPathExtent - 1
    ensures name.None? ==> s == []
  {
    if name.None? then []
    else if |name.value| < MagickPathExtent then name.value
    else name.value[..MagickPathExtent - 1]
  }

  /** A string with its whitespace removed. */
  function Stripped(s: string): (r: string)
    ensures |r| <= |s|
  {
    if s == [] then [] else (if IsSpace(s[0]) then [] else [s[0]]) + Stripped(s[1..])
  }

  /** The index of the first colon, or the length when there is none. */
  function ColonAt(s: string): (k: nat)
    ensures k <= |s| && ':' !in s[..k]
    ensures k < |s| ==> s[k] == ':'
  {
    if s == [] then 0
    else if s[0] == ':' then 0
    else
      assert s[..1 + ColonAt(s[1..])] == [s[0]] + s[1..][..ColonAt(s[1..])];
      1 + ColonAt(s[1..])
  }

  /** The domain and the name to look for: the text before the first
    * colon, parsed, and the text after it; without a colon, any domain
    * and the whole text. */
  function SplitDomain(s: string, parse: string -> int): (int, string)
  {
    var k := ColonAt(s);
    if k == |s| then (UndefinedDomain, s) else (parse(s[..k]), s[k + 1..])
  }

  /** What a lookup for `name` searches for. */
  function Key(name: Option<string>, parse: string -> int): (int, string)
  {
    SplitDomain(Stripped(Truncated(name)), parse)
  }

  /** A null name and "*" ask for the first policy. */
  predicate Wildcard(name: Option<string>)
  {
    name.None? || SameText(name.value, "*")
  }

  // ---------------------------------------------------------------------
  // Lookup

  /** A policy answers a lookup: it is in the domain asked for (any domain
    * when none is) and has the name, ignoring case. */
  predicate Matches(p: PolicyInfo, domain: int, key: string)
  {
    (domain == UndefinedDomain || p.domain == domain) && p.name.Some? && SameText(key, p.name.value)
  }

  /** The first policy that answers the lookup. */
  function Find(ps: seq<PolicyInfo>, domain: int, key: string): (r: Option<nat>)
    ensures r.Some? ==> r.value < |ps| && Matches(ps[r.value], domain, key)
    ensures r.Some? ==> forall j :: 0 <= j < r.value ==> !Matches(ps[j], domain, key)
    ensures r.None? ==> forall j :: 0 <= j < |ps| ==> !Matches(ps[j], domain, key)
  {
    if ps == [] then None
    else if Matches(ps[0], domain, key) then Some(0)
    else
      match Find(ps[1..], domain, key)
      case None => None
      case Some(k) => Some(k + 1)
  }

  /** The cache with entry `k` taken out and put first; the others keep
    * their order. */
  function MoveToFront(ps: seq<PolicyInfo>, k: nat): (r: seq<PolicyInfo>)
    requires k < |ps|
  {
    [ps[k]] + ps[..k] + ps[k + 1..]
  }

  /** A lookup's answer and the cache after it. */
  function Lookup(ps: seq<PolicyInfo>, name: Option<string>, parse: string -> int): (Option<PolicyInfo>, seq<PolicyInfo>)
  {
    if Wildcard(name) then (if ps == [] then None else Some(ps[0]), ps)
    else
      var (domain, key) := Key(name, parse);
      match Find(ps, domain, key)
      case None => (None, ps)
      case Some(k) => (Some(ps[k]), MoveToFront(ps, k))
  }

  /** A lookup, given the position the search stopped at. */
  lemma LookupBy(ps: seq<PolicyInfo>, name: Option<string>, parse: string -> int, domain: int, key: string, i: nat)
    requires !Wildcard(name) && Key(name, parse) == (domain, key) && i <= |ps|
    requires Find(ps, domain, key) == if i < |ps| then Some(i) else None
    ensures Lookup(ps, name, parse) == if i < |ps| then (Some(ps[i]), MoveToFront(ps, i)) else (None, ps)
  {
  }

  /** Moving an entry to the front reorders the cache and nothing else:
    * the entry comes first, the entries before it move up by one, those
    * after it stay where they are. */
  lemma MoveToFrontPositions(ps: seq<PolicyInfo>, k: nat)
    requires k < |ps|
    ensures var r := MoveToFront(ps, k);
      |r| == |ps| && multiset(r) == multiset(ps) && r[0] == ps[k]
      && (forall i :: 0 <= i < k ==> r[i + 1] == ps[i])
      && (forall i :: k < i < |ps| ==> r[i] == ps[i])
  {
    var r := MoveToFront(ps, k);
    var pre, post := ps[..k], ps[k + 1..];
    assert ps == pre + [ps[k]] + post;
    assert multiset(r) == multiset([ps[k]]) + multiset(pre) + multiset(post);
    assert forall i :: k < i < |ps| ==> r[i] == post[i - k - 1];
  }


  /** A lookup returns a policy that answers it, none before it in the
    * cache does, and the cache afterwards holds the same policies with
    * the answer first; a lookup that finds nothing changes nothing. */
  lemma LookupFinds(ps: seq<PolicyInfo>, name: Option<string>, parse: string -> int)
    requires !Wildcard(name)
    ensures var (r, after) := Lookup(ps, name, parse);
      var (domain, key) := Key(name, parse);
      (r.None? <==> forall j :: 0 <= j < |ps| ==> !Matches(ps[j], domain, key))
      && (r.None? ==> after == ps)
      && (r.Some? ==>
            Matches(r.value, domain, key) && after[0] == r.value && multiset(after) == multiset(ps))
  {
    var (domain, key) := Key(name, parse);
    var k := Find(ps, domain, key);
    if k.Some? {
      MoveToFrontPositions(ps, k.value);
    }
  }

  /** A lookup keeps every cached string within `size_t`. */
  lemma LookupFits(ps: seq<PolicyInfo>, name: Option<string>, parse: string -> int)
    requires forall p :: p in ps ==> Fits(p)
    ensures forall p :: p in Lookup(ps, name, parse).1 ==> Fits(p)
  {
    LookupKeeps(ps, name, parse);
  }

  /** Every lookup answers a policy of the cache, if any, and leaves the
    * cache holding the same policies. */
  lemma LookupKeeps(ps: seq<PolicyInfo>, name: Option<string>, parse: string -> int)
    ensures var (r, after) := Lookup(ps, name, parse);
      (r.Some? ==> r.value in ps) && multiset(after) == multiset(ps)
      && forall p :: p in after <==> p in ps
  {
    var (r, after) := Lookup(ps, name, parse);
    if !Wildcard(name) {
      var (domain, key) := Key(name, parse);
      var k := Find(ps, domain, key);
      if k.Some? {
        MoveToFrontPositions(ps, k.value);
      }
    }
    assert forall p :: p in after <==> p in multiset(after);
  }

  /** A wildcard lookup answers the first policy and does not reorder. */
  lemma WildcardLookup(ps: seq<PolicyInfo>, name: Option<string>, parse: string -> int)
    requires Wildcard(name)
    ensures Lookup(ps, name, parse).1 == ps
    ensures Lookup(ps, name, parse).0 == if ps == [] then None else Some(ps[0])
  {
  }

  /** Looking the same name up twice answers the same policy, and the
    * second lookup leaves the cache as the first left it. */
  lemma LookupTwice(ps: seq<PolicyInfo>, name: Option<string>, parse: string -> int)
    ensures var (r, after) := Lookup(ps, name, parse);
      Lookup(after, name, parse) == (r, after)
  {
    var (r, after) := Lookup(ps, name, parse);
    if !Wildcard(name) {
      var (domain, key) := Key(name, parse);
      var k := Find(ps, domain, key);
      if k.Some? {
        assert after[0] == ps[k.value];
        assert Find(after, domain, key) == Some(0);
        assert MoveToFront(after, 0) == after;
      }
    }
  }

  /** Equality ignoring case is an equivalence. */
  lemma SameTextEquivalence(a: string, b: string, c: string)
    ensures SameText(a, a)
    ensures SameText(a, b) ==> SameText(b, a)
    ensures SameText(a, b) && SameText(b, c) ==> SameText(a, c)
  {
  }

  /** Names that differ only in case find the same policy. */
  lemma FindIgnoresCase(ps: seq<PolicyInfo>, domain: int, a: string, b: string)
    requires SameText(a, b)
    ensures Find(ps, domain, a) == Find(ps, domain, b)
  {
    forall p: PolicyInfo
      ensures Matches(p, domain, a) == Matches(p, domain, b)
    {
      if p.name.Some? {
        SameTextEquivalence(a, b, p.name.value);
        SameTextEquivalence(b, a, p.name.value);
      }
    }
    FindAgrees(ps, domain, a, b);
  }

  lemma {:induction false} FindAgrees(ps: seq<PolicyInfo>, domain: int, a: string, b: string)
    requires forall p: PolicyInfo :: Matches(p, domain, a) == Matches(p, domain, b)
    ensures Find(ps, domain, a) == Find(ps, domain, b)
    decreases |ps|
  {
    if ps != [] {
      FindAgrees(ps[1..], domain, a, b);
    }
  }

  /** Stripping removes every whitespace character and keeps the others in
    * order. */
  lemma {:induction false} StrippedHasNoSpace(s: string)
    ensures forall c :: c in Stripped(s) ==> c in s && !IsSpace(c)
    ensures (forall c :: c in s ==> !IsSpace(c)) ==> Stripped(s) == s
    decreases |s|
  {
    if s != [] {
      StrippedHasNoSpace(s[1..]);
      assert s == [s[0]] + s[1..];
    }
  }

  /** Stripping distributes over concatenation. */
  lemma {:induction false} StrippedAppend(a: string, b: string)
    ensures Stripped(a + b) == Stripped(a) + Stripped(b)
    decreases |a|
  {
    if a == [] {
      assert a + b == b;
    } else {
      var head := if IsSpace(a[0]) then [] else [a[0]];
      var ab, tail := a + b, a[1..];
      assert ab != [] && ab[0] == a[0] && ab[1..] == tail + b;
      StrippedAppend(tail, b);
      calc {
        Stripped(ab);
        head + Stripped(tail + b);
        head + (Stripped(tail) + Stripped(b));
        (head + Stripped(tail)) + Stripped(b);
        Stripped(a) + Stripped(b);
      }
    }
  }

  /** Whitespace anywhere in a name that fits the buffer does not change
    * what is looked up. */
  lemma KeyIgnoresSpace(a: string, c: char, b: string, parse: string -> int)
    requires IsSpace(c) && |a| + 1 + |b| < MagickPathExtent
    ensures Key(Some(a + [c] + b), parse) == Key(Some(a + b), parse)
  {
    var spaced, plain := a + [c] + b, a + b;
    assert Truncated(Some(spaced)) == spaced && Truncated(Some(plain)) == plain;
    StrippedAppend(a + [c], b);
    StrippedAppend(a, [c]);
    StrippedAppend(a, b);
    assert Stripped([c]) == [] by {
      assert [c][1..] == [];
    }
    assert Stripped(spaced) == Stripped(plain);
  }

  /** A name with a colon is looked up in the domain its prefix parses to,
    * by the text after the first colon; a name without one, in every
    * domain. */
  lemma SplitDomainParts(s: string, parse: string -> int)
    ensures ':' !in s ==> SplitDomain(s, parse) == (UndefinedDomain, s)
    ensures forall k :: 0 <= k < |s| && s[k] == ':' && ':' !in s[..k] ==>
      SplitDomain(s, parse) == (parse(s[..k]), s[k + 1..])
  {
    var k := ColonAt(s);
    if k == |s| {
      assert s[..k] == s;
    }
  }


  // ---------------------------------------------------------------------
  // Rights

  /** A policy applies to a request: same domain, and the requested
    * pattern matches the policy's pattern. */
  predicate Applies(p: PolicyInfo, domain: int, pattern: string, glob: Glob)
  {
    p.domain == domain && glob(Some(pattern), p.pattern)
  }

  /** The decision after one applying policy: each requested right, read
    * then write then execute, overwrites it with whether the policy grants
    * that right. */
  function Verdict(authorized: bool, p: PolicyInfo, rights: Rights): bool
  {
    var afterRead := if rights.read then p.rights.read else authorized;
    var afterWrite := if rights.write then p.rights.write else afterRead;
    if rights.execute then p.rights.execute else afterWrite
  }

  /** The decision over a cache: true to begin with, then each applying
    * policy in cache order gives its verdict. */
  function Decision(ps: seq<PolicyInfo>, domain: int, rights: Rights, pattern: string, glob: Glob): bool
  {
    if ps == [] then true
    else
      var before := Decision(ps[..|ps| - 1], domain, rights, pattern, glob);
      var last := ps[|ps| - 1];
      if Applies(last, domain, pattern, glob) then Verdict(before, last, rights) else before
  }

  /** Whether some right is requested. */
  predicate Requested(rights: Rights)
  {
    rights.read || rights.write || rights.execute
  }

  /** What a policy says about the requested rights: execute counts before
    * write, write before read. */
  function Grants(p: PolicyInfo, rights: Rights): bool
    requires Requested(rights)
  {
    if rights.execute then p.rights.execute
    else if rights.write then p.rights.write
    else p.rights.read
  }

  /** The last applying policy decides: when some right is requested and
    * policy `k` applies and none after it does, the decision is what
    * policy `k` grants. */
  lemma {:induction false} LastMatchWins(ps: seq<PolicyInfo>, domain: int, rights: Rights, pattern: string, glob: Glob, k: nat)
    requires Requested(rights) && k < |ps| && Applies(ps[k], domain, pattern, glob)
    requires forall j :: k < j < |ps| ==> !Applies(ps[j], domain, pattern, glob)
    ensures Decision(ps, domain, rights, pattern, glob) == Grants(ps[k], rights)
    decreases |ps|
  {
    if k < |ps| - 1 {
      var init := ps[..|ps| - 1];
      assert init[k] == ps[k];
      LastMatchWins(init, domain, rights, pattern, glob, k);
    }
  }

  /** Without an applying policy, or without a requested right, the
    * request is authorized. */
  lemma {:induction false} NoMatchAuthorizes(ps: seq<PolicyInfo>, domain: int, rights: Rights, pattern: string, glob: Glob)
    requires !Requested(rights) || forall j :: 0 <= j < |ps| ==> !Applies(ps[j], domain, pattern, glob)
    ensures Decision(ps, domain, rights, pattern, glob)
    decreases |ps|
  {
    if ps != [] {
      var init := ps[..|ps| - 1];
      assert forall j :: 0 <= j < |init| ==> init[j] == ps[j];
      NoMatchAuthorizes(init, domain, rights, pattern, glob);
    }
  }

  /** Policies appended to the cache decide a request once one of them
    * applies, whatever the policies before them say. */
  lemma AppendedPolicyDecides(ps: seq<PolicyInfo>, more: seq<PolicyInfo>, domain: int, rights: Rights,
                              pattern: string, glob: Glob, k: nat)
    requires Requested(rights) && k < |more| && Applies(more[k], domain, pattern, glob)
    requires forall j :: k < j < |more| ==> !Applies(more[j], domain, pattern, glob)
    ensures Decision(ps + more, domain, rights, pattern, glob) == Grants(more[k], rights)
  {
    var all := ps + more;
    assert all[|ps| + k] == more[k];
    assert forall j :: |ps| + k < j < |all| ==> all[j] == more[j - |ps|];
    LastMatchWins(all, domain, rights, pattern, glob, |ps| + k);
  }

  // ---------------------------------------------------------------------
  // Listings

  /** A policy a listing shows: not hidden, and its name matches the
    * pattern. */
  predicate Shown(p: PolicyInfo, pattern: string, glob: Glob)
  {
    !p.stealth && glob(p.name, Some(pattern))
  }

  /** The policies a listing shows, in cache order. */
  function Listed(ps: seq<PolicyInfo>, pattern: string, glob: Glob): (r: seq<PolicyInfo>)
    ensures |r| <= |ps|
  {
    if ps == [] then []
    else
      var last := ps[|ps| - 1];
      Listed(ps[..|ps| - 1], pattern, glob) + (if Shown(last, pattern, glob) then [last] else [])
  }

  /** A listing holds exactly the shown policies of the cache. */
  lemma {:induction false} ListedExactly(ps: seq<PolicyInfo>, pattern: string, glob: Glob)
    ensures forall p :: p in Listed(ps, pattern, glob) <==> p in ps && Shown(p, pattern, glob)
    decreases |ps|
  {
    if ps != [] {
      var init := ps[..|ps| - 1];
      ListedExactly(init, pattern, glob);
      assert ps == init + [ps[|ps| - 1]];
    }
  }

  /** Listing a cache in two parts lists the first part's policies, then
    * the second's: a listing keeps cache order. */
  lemma {:induction false} ListedAppend(ps: seq<PolicyInfo>, more: seq<PolicyInfo>, pattern: string, glob: Glob)
    ensures Listed(ps + more, pattern, glob) == Listed(ps, pattern, glob) + Listed(more, pattern, glob)
    decreases |more|
  {
    if more == [] {
      assert ps + more == ps;
    } else {
      var init := more[..|more| - 1];
      ListedAppend(ps, init, pattern, glob);
      assert (ps + more)[..|ps + more| - 1] == ps + init;
    }
  }

  /** A policy's name as the name listing copies it: a null name as the
    * empty string. */
  function NameText(p: PolicyInfo): string
  {
    if p.name.Some? then p.name.value else []
  }

  // ---------------------------------------------------------------------
  // The user-policy guard

  /** A user policy is loaded only when there is one and the cache is
    * empty or starts with a policy without a domain. */
  predicate UserPolicyAllowed(ps: seq<PolicyInfo>, policy: Option<string>)
  {
    policy.Some? && (ps == [] || ps[0].domain == UndefinedDomain)
  }

  /** Once a lookup has moved a policy with a domain to the front of the
    * cache, no user policy is accepted. */
  lemma LookupClosesGuard(ps: seq<PolicyInfo>, name: Option<string>, parse: string -> int, policy: Option<string>)
    requires !Wildcard(name)
    requires var r := Lookup(ps, name, parse).0; r.Some? && r.value.domain != UndefinedDomain
    ensures !UserPolicyAllowed(Lookup(ps, name, parse).1, policy)
  {
    LookupFinds(ps, name, parse);
  }

  /** A user policy cannot take a name from the cache: a lookup that finds
    * a policy before the appended ones still finds that one. */
  lemma {:induction false} FindBeforeAppended(ps: seq<PolicyInfo>, more: seq<PolicyInfo>, domain: int, key: string)
    requires Find(ps, domain, key).Some?
    ensures Find(ps + more, domain, key) == Find(ps, domain, key)
    decreases |ps|
  {
    if !Matches(ps[0], domain, key) {
      assert (ps + more)[1..] == ps[1..] + more;
      FindBeforeAppended(ps[1..], more, domain, key);
    }
  }
}
