/**
 * The policy cache: the list of loaded policies that lookups reorder, and
 * the queries and updates performed on it. Each method is proved to agree
 * with the functions of `Policy`, whose lemmas state what the queries
 * mean. Loading policies from configuration files is not part of this
 * model: the constructor takes the loaded list.
 */
module PolicyCache {
  import opened Wrappers
  import opened Policy

  datatype PolicyError = UnableToAcquireString

  /** A sequence with each element present. */
  function Entries<T>(s: seq<T>): (r: seq<Option<T>>)
    ensures |r| == |s|
  {
    seq(|s|, i requires 0 <= i < |s| => Some(s[i]))
  }

  /** The names a name listing copies. */
  function Names(ps: seq<PolicyInfo>): (r: seq<string>)
    ensures |r| == |ps|
  {
    seq(|ps|, i requires 0 <= i < |ps| => NameText(ps[i]))
  }

  /** A copy of a string, a null one as empty, into a fresh buffer of its
    * length plus `pad` characters, terminated right after the copy. The
    * copy fails when the length plus `pad` exceeds the largest `size_t`. */
  method AcquirePolicyString(source: Option<string>, pad: nat) returns (r: Result<array<char>, PolicyError>)
    requires pad >= 1
    requires source.Some? ==> |source.value| <= SizeMax
    ensures var length := if source.Some? then |source.value| else 0;
      r.Success? <==> SizeMax - length >= pad
    ensures r.Success? ==>
      var text := if source.Some? then source.value else [];
      fresh(r.value) && r.value.Length == |text| + pad
      && r.value[..|text|] == text && r.value[|text|] == '\0'
  {
    var length := 0;
    if source.Some? {
      length := length + |source.value|;
    }
    if SizeMax - length < pad {
      return Failure(UnableToAcquireString);
    }
    var text := if source.Some? then source.value else [];
    var destination := new char[length + pad](i requires 0 <= i < length + pad => if i < length then text[i] else '\0');
    assert destination[..length] == text;
    return Success(destination);
  }

  /** Moves the characters after `q` of the first `n` one place left. */
  method ShiftLeft(buf: array<char>, q: nat, n: nat)
    requires q < n <= buf.Length
    modifies buf
    ensures buf[..q] == old(buf[..q]) && buf[q..n - 1] == old(buf[q + 1..n])
  {
    var k := q;
    while k < n - 1
      invariant q <= k <= n - 1
      invariant forall i :: 0 <= i < q ==> buf[i] == old(buf[i])
      invariant forall i :: q <= i < k ==> buf[i] == old(buf[i + 1])
      invariant forall i :: k <= i < buf.Length ==> buf[i] == old(buf[i])
    {
      buf[k] := buf[k + 1];
      k := k + 1;
    }
  }

  /** One step of the strip: the character at `q` is kept and passed, or
    * it is whitespace and the rest shifts left over it. */
  method StripStep(buf: array<char>, q: nat, n: nat, ghost text: string) returns (q': nat, n': nat)
    requires q < n <= buf.Length
    requires buf[..q] + Stripped(buf[q..n]) == Stripped(text)
    modifies buf
    ensures q' <= n' <= n && n' - q' == n - q - 1
    ensures buf[..q'] + Stripped(buf[q'..n']) == Stripped(text)
  {
    assert buf[q..n] == [buf[q]] + buf[q + 1..n];
    if !IsSpace(buf[q]) {
      assert buf[..q + 1] == buf[..q] + [buf[q]];
      return q + 1, n;
    }
    ghost var rest := buf[q + 1..n];
    ShiftLeft(buf, q, n);
    assert buf[q..n - 1] == rest;
    return q, n - 1;
  }

  /** Removes the whitespace from the first `length` characters in place,
    * shifting the rest left over each one; the new length is returned. */
  method StripSpaces(buf: array<char>, length: nat) returns (n: nat)
    requires length <= buf.Length
    modifies buf
    ensures n <= length && buf[..n] == Stripped(old(buf[..length]))
  {
    ghost var text := buf[..length];
    n := length;
    var q: nat := 0;
    assert buf[q..n] == text;
    while q < n
      invariant q <= n <= length
      invariant buf[..q] + Stripped(buf[q..n]) == Stripped(text)
      decreases n - q
    {
      q, n := StripStep(buf, q, n, text);
    }
    assert buf[q..n] == [];
  }

  /** What a lookup searches for: the name copied into a buffer of
    * `MagickPathExtent` characters, stripped of whitespace in place, and
    * split at its first colon into a domain and the name proper. */
  method NormalizeName(name: Option<string>, parse: string -> int) returns (domain: int, key: string)
    ensures (domain, key) == Key(name, parse)
  {
    var text := Truncated(name);
    var buf := new char[MagickPathExtent](i requires 0 <= i < MagickPathExtent => if i < |text| then text[i] else '\0');
    assert buf[..|text|] == text;
    var n := StripSpaces(buf, |text|);
    domain := UndefinedDomain;
    key := buf[..n];
    var q := 0;
    while q < n
      invariant q <= n && ':' !in buf[..q]
    {
      if buf[q] == ':' {
        domain := parse(buf[..q]);
        key := buf[q + 1..n];
        break;
      }
      assert buf[..q + 1] == buf[..q] + [buf[q]];
      q := q + 1;
    }
    SplitDomainParts(buf[..n], parse);
    if q == n {
      assert ':' !in buf[..n];
    } else {
      assert buf[..n][..q] == buf[..q] && buf[..n][q + 1..] == buf[q + 1..n];
    }
  }

  class PolicyCache {
    /** The loaded policies, in the order lookups leave them. */
    var policies: seq<PolicyInfo>

    /** Every cached string fits in memory. */
    predicate Valid()
      reads this
    {
      forall p :: p in policies ==> Fits(p)
    }

    constructor (loaded: seq<PolicyInfo>)
      requires forall p :: p in loaded ==> Fits(p)
      ensures Valid() && policies == loaded
    {
      policies := loaded;
    }

    /** The position of the first policy that answers a lookup, or the
      * cache's length when none does. */
    method Search(domain: int, key: string) returns (i: nat)
      ensures i <= |policies|
      ensures Find(policies, domain, key) == if i < |policies| then Some(i) else None
    {
      i := 0;
      while i < |policies| && !Matches(policies[i], domain, key)
        invariant i <= |policies|
        invariant forall j :: 0 <= j < i ==> !Matches(policies[j], domain, key)
      {
        i := i + 1;
      }
    }

    /** Looks a policy up by name: the name is copied into the buffer,
      * stripped of whitespace and split at its first colon into a domain
      * and the name proper; a null name or "*" answers the first policy,
      * any other name the first policy it matches, which is moved to the
      * front. */
    method GetPolicyInfo(name: Option<string>, parse: string -> int) returns (p: Option<PolicyInfo>)
      requires Valid()
      modifies this
      ensures Valid()
      ensures p == Lookup(old(policies), name, parse).0
      ensures policies == Lookup(old(policies), name, parse).1
    {
      LookupFits(policies, name, parse);
      var domain, key := NormalizeName(name, parse);
      if Wildcard(name) {
        p := if |policies| == 0 then None else Some(policies[0]);
        return;
      }
      var i := Search(domain, key);
      LookupBy(policies, name, parse, domain, key, i);
      if i < |policies| {
        p := Some(policies[i]);
        var found := policies[i];
        var rest := policies[..i] + policies[i + 1..];
        assert [found] + rest == MoveToFront(policies, i);
        policies := [found] + rest;
      } else {
        p := None;
      }
    }

    /** Whether the rights asked for are granted for `pattern` in a domain:
      * granted when the cache is empty, and otherwise each policy of the
      * domain whose pattern matches overwrites the decision with its own
      * read, then write, then execute right, as far as each is asked for. */
    method IsRightsAuthorized(domain: int, rights: Rights, pattern: string, glob: Glob) returns (authorized: bool)
      ensures authorized == Decision(policies, domain, rights, pattern, glob)
    {
      if |policies| == 0 {
        return true;
      }
      authorized := true;
      var i := 0;
      while i < |policies|
        invariant i <= |policies|
        invariant authorized == Decision(policies[..i], domain, rights, pattern, glob)
      {
        var p := policies[i];
        if p.domain == domain && glob(Some(pattern), p.pattern) {
          if rights.read {
            authorized := p.rights.read;
          }
          if rights.write {
            authorized := p.rights.write;
          }
          if rights.execute {
            authorized := p.rights.execute;
          }
        }
        assert policies[..i + 1][..i] == policies[..i];
        i := i + 1;
      }
      assert policies[..i] == policies;
    }

    /** The policies whose names match `pattern`, hidden ones left out, in
      * cache order, in a fresh array with room for every policy and a null
      * entry after the last; none at all when the cache is empty. */
    method GetPolicyInfoList(pattern: string, glob: Glob) returns (list: Option<array<Option<PolicyInfo>>>, count: nat)
      ensures policies == [] ==> list.None? && count == 0
      ensures policies != [] ==>
        list.Some? && fresh(list.value) && list.value.Length == |policies| + 1
        && count == |Listed(policies, pattern, glob)|
        && list.value[..count] == Entries(Listed(policies, pattern, glob)) && list.value[count] == None
    {
      if |policies| == 0 {
        return None, 0;
      }
      var entries := new Option<PolicyInfo>[|policies| + 1](_ => None);
      var i := 0;
      var k := 0;
      while k < |policies|
        invariant k <= |policies| && i <= k
        invariant i == |Listed(policies[..k], pattern, glob)|
        invariant entries[..i] == Entries(Listed(policies[..k], pattern, glob))
      {
        var p := policies[k];
        assert policies[..k + 1][..k] == policies[..k];
        if !p.stealth && glob(p.name, Some(pattern)) {
          entries[i] := Some(p);
          i := i + 1;
        }
        k := k + 1;
      }
      assert policies[..k] == policies;
      entries[i] := None;
      return Some(entries), i;
    }

    /** The names of the policies `GetPolicyInfoList` lists, each copied
      * into a fresh string, a null name as the empty one. */
    method GetPolicyList(pattern: string, glob: Glob) returns (list: Option<array<Option<string>>>, count: nat)
      requires Valid()
      ensures policies == [] ==> list.None? && count == 0
      ensures policies != [] ==>
        list.Some? && fresh(list.value) && list.value.Length == |policies| + 1
        && count == |Listed(policies, pattern, glob)|
        && list.value[..count] == Entries(Names(Listed(policies, pattern, glob))) && list.value[count] == None
    {
      if |policies| == 0 {
        return None, 0;
      }
      var entries := new Option<string>[|policies| + 1](_ => None);
      var i := 0;
      var k := 0;
      while k < |policies|
        invariant k <= |policies| && i <= k
        invariant i == |Listed(policies[..k], pattern, glob)|
        invariant entries[..i] == Entries(Names(Listed(policies[..k], pattern, glob)))
      {
        var p := policies[k];
        assert policies[..k + 1][..k] == policies[..k];
        if !p.stealth && glob(p.name, Some(pattern)) {
          assert Fits(p);
          var copy := AcquirePolicyString(p.name, 1);
          entries[i] := Some(copy.value[..|NameText(p)|]);
          i := i + 1;
        }
        k := k + 1;
      }
      assert policies[..k] == policies;
      entries[i] := None;
      return Some(entries), i;
    }

    /** The value of the policy a lookup for `name` answers, copied into a
      * fresh string; none when no policy answers or its value is null or
      * empty. The lookup reorders the cache as `GetPolicyInfo` does. */
    method GetPolicyValue(name: string, parse: string -> int) returns (value: Option<array<char>>)
      requires Valid()
      modifies this
      ensures Valid() && policies == Lookup(old(policies), Some(name), parse).1
      ensures var r := Lookup(old(policies), Some(name), parse).0;
        value.None? <==> r.None? || r.value.value.None? || r.value.value.value == []
      ensures value.Some? ==>
        var v := Lookup(old(policies), Some(name), parse).0.value.value.value;
        fresh(value.value) && value.value.Length == |v| + 1 && value.value[..|v|] == v && value.value[|v|] == '\0'
    {
      var p := GetPolicyInfo(Some(name), parse);
      if p.None? {
        return None;
      }
      var v := p.value.value;
      if v.None? || v.value == [] {
        return None;
      }
      assert Fits(p.value);
      var copy := AcquirePolicyString(v, 1);
      return Some(copy.value);
    }

    /** Loads a user policy: refused when there is none, or when the cache
      * starts with a policy that has a domain; otherwise the policies the
      * loader parsed from it are appended, and the result is the loader's
      * status and then that of restarting the resource component. */
    method SetMagickSecurityPolicy(policy: Option<string>, loaded: seq<PolicyInfo>, loadStatus: bool, genesis: bool)
      returns (ok: bool)
      requires Valid() && forall p :: p in loaded ==> Fits(p)
      modifies this
      ensures Valid()
      ensures UserPolicyAllowed(old(policies), policy) ==>
        policies == old(policies) + loaded && ok == (loadStatus && genesis)
      ensures !UserPolicyAllowed(old(policies), policy) ==> policies == old(policies) && !ok
    {
      if policy.None? {
        return false;
      }
      if |policies| > 0 && policies[0].domain != UndefinedDomain {
        return false;
      }
      policies := policies + loaded;
      if !loadStatus {
        return false;
      }
      return genesis;
    }
  }
}
