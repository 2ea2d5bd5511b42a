/** Provider-safe tool names (packages/agent-runtime-pi/src/index.ts, runtimeToolAliases). */
module ToolAliases {
  import opened Numbers

  const MAX_NAME: nat := 128

  predicate SafeChar(c: char) {
    'a' <= c <= 'z' || 'A' <= c <= 'Z' || '0' <= c <= '9' || c == '_' || c == '-'
  }

  predicate Safe(s: string) {
    forall i | 0 <= i < |s| :: SafeChar(s[i])
  }

  /** What the provider accepts as a tool name. */
  predicate RuntimeName(s: string) {
    1 <= |s| <= MAX_NAME && Safe(s)
  }

  // ----- Hashes -----

  function Mixed(hash: bv32, c: bv32): bv32 {
    (hash ^ c) * 16777619
  }

  /** 32-bit FNV-1a, printed in base 36. */
  function HashFrom(value: string, hash: bv32): bv32 {
    if value == [] then hash else HashFrom(value[1..], Mixed(hash, value[0] as int as bv32))
  }

  function NameHash(value: string): string {
    Digits(HashFrom(value, 2166136261) as int, 36)
  }

  lemma NameHashLength(value: string)
    ensures |NameHash(value)| <= 7
  {
    assert Power(36, 7) == 78364164096 by {
      assert Power(36, 3) == 46656;
      assert Power(36, 5) == 60466176;
    }
    DigitsLength(HashFrom(value, 2166136261) as int, 36, 7);
  }

  // ----- One alias -----

  function TrimLeft(s: string): string {
    if s != "" && s[0] == '_' then TrimLeft(s[1..]) else s
  }

  function TrimRight(s: string): string {
    if s != "" && s[|s| - 1] == '_' then TrimRight(s[..|s| - 1]) else s
  }

  function Replaced(name: string): string {
    seq(|name|, i requires 0 <= i < |name| => if SafeChar(name[i]) then name[i] else '_')
  }

  function Normalized(name: string): string {
    var trimmed := TrimRight(TrimLeft(Replaced(name)));
    if trimmed == "" then "tool" else trimmed
  }

  /** The host's slice from the start: a negative bound counts from the end. */
  function Slice(s: string, end: int): string {
    if end >= |s| then s
    else if end >= 0 then s[..end]
    else if |s| + end >= 0 then s[..|s| + end]
    else ""
  }

  function WithSuffix(normalized: string, suffix: string): string {
    Slice(normalized, MAX_NAME - |suffix|) + suffix
  }

  function PlainAlias(name: string): string {
    Slice(Normalized(name), MAX_NAME)
  }

  function HashedAlias(name: string): string {
    WithSuffix(Normalized(name), "_" + NameHash(name))
  }

  function FirstAlias(name: string, valid: set<string>, used: set<string>): string {
    var alias := PlainAlias(name);
    if alias in valid || alias in used || !RuntimeName(alias) then HashedAlias(name) else alias
  }

  function Candidate(normalized: string, n: nat): string {
    WithSuffix(normalized, "_" + Digits(n, 10))
  }

  lemma SuffixDetermines(a: string, b: string, x: string, y: string)
    requires '_' !in x && '_' !in y && a + ("_" + x) == b + ("_" + y)
    ensures x == y
  {
    var s := a + ("_" + x);
    assert s[|s| - |x| - 1] == '_' && s[|s| - |y| - 1] == '_';
    assert forall i | 0 <= i < |x| :: x[i] != '_';
    assert forall i | 0 <= i < |y| :: y[i] != '_';
    assert forall i | |s| - |x| <= i < |s| :: s[i] == x[i - (|s| - |x|)];
    assert forall i | |s| - |y| <= i < |s| :: s[i] == y[i - (|s| - |y|)];
    assert s[|s| - |x|..] == x && s[|s| - |y|..] == y;
  }

  lemma CandidatesDistinct(normalized: string, m: nat, n: nat)
    requires Candidate(normalized, m) == Candidate(normalized, n)
    ensures m == n
  {
    var x, y := Digits(m, 10), Digits(n, 10);
    SuffixDetermines(Slice(normalized, MAX_NAME - |"_" + x|), Slice(normalized, MAX_NAME - |"_" + y|), x, y);
    DecimalInjective(m, n);
  }

  predicate AllTaken(normalized: string, used: set<string>, from: nat, limit: nat) {
    forall n | from <= n < limit :: Candidate(normalized, n) in used
  }

  /** Pigeonhole: distinct candidates already taken are no more than the names in use. */
  lemma {:induction false} TakenAreFew(normalized: string, used: set<string>, limit: nat)
    requires limit >= 2 && AllTaken(normalized, used, 2, limit)
    ensures limit - 2 <= |used|
    decreases limit
  {
    if limit > 2 {
      var last := Candidate(normalized, limit - 1);
      var others := used - {last};
      forall n | 2 <= n < limit - 1
        ensures Candidate(normalized, n) in others
      {
        if Candidate(normalized, n) == last {
          CandidatesDistinct(normalized, n, limit - 1);
        }
      }
      TakenAreFew(normalized, others, limit - 1);
    }
  }

  /** The first free candidate; the search ends because every miss is a different name in use. */
  function FreeCandidate(normalized: string, used: set<string>, n: nat): (r: (string, nat))
    requires n >= 2 && AllTaken(normalized, used, 2, n)
    ensures r.0 !in used && r.0 == Candidate(normalized, r.1) && n <= r.1 <= |used| + 2
    ensures AllTaken(normalized, used, 2, r.1)
    decreases |used| + 2 - n
  {
    TakenAreFew(normalized, used, n);
    if Candidate(normalized, n) !in used then (Candidate(normalized, n), n)
    else
      assert AllTaken(normalized, used, 2, n + 1);
      TakenAreFew(normalized, used, n + 1);
      FreeCandidate(normalized, used, n + 1)
  }

  function AliasFor(name: string, valid: set<string>, used: set<string>): (alias: string)
    ensures alias !in used
  {
    if RuntimeName(name) && name !in used then name
    else
      var first := FirstAlias(name, valid, used);
      if first !in used then first else FreeCandidate(Normalized(name), used, 2).0
  }

  // ----- All aliases -----

  datatype Naming = Naming(aliases: map<string, string>, used: set<string>)

  function Assign(naming: Naming, name: string, valid: set<string>): Naming {
    var alias := AliasFor(name, valid, naming.used);
    Naming(naming.aliases[name := alias], naming.used + {alias})
  }

  function AssignAll(names: seq<string>, valid: set<string>): Naming {
    if names == [] then Naming(map[], {})
    else Assign(AssignAll(names[..|names| - 1], valid), names[|names| - 1], valid)
  }

  function ValidNames(names: seq<string>): set<string> {
    set name | name in names && RuntimeName(name)
  }

  method RuntimeToolAliases(names: seq<string>) returns (aliases: map<string, string>)
    ensures aliases == AssignAll(names, ValidNames(names)).aliases
  {
    aliases := map[];
    var validCanonical := ValidNames(names);
    var used: set<string> := {};
    for i := 0 to |names|
      invariant Naming(aliases, used) == AssignAll(names[..i], validCanonical)
    {
      var name := names[i];
      assert names[..i + 1][..i] == names[..i];
      if RuntimeName(name) && name !in used {
        aliases := aliases[name := name];
        used := used + {name};
        continue;
      }
      var alias := FindAlias(name, validCanonical, used);
      aliases := aliases[name := alias];
      used := used + {alias};
    }
    assert names[..|names|] == names;
  }

  method FindAlias(name: string, validCanonical: set<string>, used: set<string>) returns (alias: string)
    requires !(RuntimeName(name) && name !in used)
    ensures alias == AliasFor(name, validCanonical, used)
  {
    var normalized := Normalized(name);
    alias := Slice(normalized, MAX_NAME);
    if alias in validCanonical || alias in used || !RuntimeName(alias) {
      alias := WithSuffix(normalized, "_" + NameHash(name));
    }
    alias := NumberUntilFree(normalized, alias, used);
  }

  method NumberUntilFree(normalized: string, first: string, used: set<string>) returns (alias: string)
    ensures alias == if first in used then FreeCandidate(normalized, used, 2).0 else first
  {
    alias := first;
    var collision := 2;
    while alias in used
      invariant collision >= 2 && AllTaken(normalized, used, 2, collision - 1)
      invariant alias == if collision == 2 then first else Candidate(normalized, collision - 1)
      invariant collision > 2 ==> first in used
      invariant collision <= |used| + 3
      decreases |used| + 3 - collision
    {
      if collision > 2 {
        TakenAreFew(normalized, used, collision);
      }
      alias := WithSuffix(normalized, "_" + Digits(collision, 10));
      collision := collision + 1;
    }
    if collision > 2 {
      FreeIsFirst(normalized, used, 2, collision - 1);
    }
  }

  lemma {:induction false} FreeIsFirst(normalized: string, used: set<string>, from: nat, n: nat)
    requires 2 <= from <= n && AllTaken(normalized, used, 2, n) && Candidate(normalized, n) !in used
    ensures FreeCandidate(normalized, used, from).0 == Candidate(normalized, n)
    decreases n - from
  {
    if from < n {
      FreeIsFirst(normalized, used, from + 1, n);
    }
  }

  // ----- What the aliases promise -----

  lemma {:induction false} TrimLeftSafe(s: string)
    requires Safe(s)
    ensures Safe(TrimLeft(s))
  {
    if s != "" && s[0] == '_' {
      TrimLeftSafe(s[1..]);
    }
  }

  lemma {:induction false} TrimRightSafe(s: string)
    requires Safe(s)
    ensures Safe(TrimRight(s))
  {
    if s != "" && s[|s| - 1] == '_' {
      TrimRightSafe(s[..|s| - 1]);
    }
  }

  lemma NormalizedSafe(name: string)
    ensures Safe(Normalized(name)) && Normalized(name) != ""
  {
    TrimLeftSafe(Replaced(name));
    TrimRightSafe(TrimLeft(Replaced(name)));
  }

  lemma WithSuffixValid(normalized: string, suffix: string)
    requires Safe(normalized) && Safe(suffix) && 1 <= |suffix| <= MAX_NAME
    ensures RuntimeName(WithSuffix(normalized, suffix))
  {
  }

  /** The longest list a host array can hold. */
  const MAX_LIST: nat := 0xFFFF_FFFF

  lemma AliasIsValid(name: string, valid: set<string>, used: set<string>)
    requires |used| <= MAX_LIST
    ensures RuntimeName(AliasFor(name, valid, used))
  {
    NormalizedSafe(name);
    NameHashLength(name);
    WithSuffixValid(Normalized(name), "_" + NameHash(name));
    if !(RuntimeName(name) && name !in used) && FirstAlias(name, valid, used) in used {
      var n := FreeCandidate(Normalized(name), used, 2).1;
      assert Power(10, 10) == 10_000_000_000 by {
        assert Power(10, 4) == 10_000;
        assert Power(10, 7) == 10_000_000;
      }
      DigitsLength(n, 10, 10);
      WithSuffixValid(Normalized(name), "_" + Digits(n, 10));
    }
  }

  predicate Injective(m: map<string, string>) {
    forall a, b | a in m && b in m && a != b :: m[a] != m[b]
  }

  lemma {:induction false} NamingIsSound(names: seq<string>, valid: set<string>)
    requires |names| <= MAX_LIST
    ensures var naming := AssignAll(names, valid);
            && |naming.used| <= |names|
            && (forall name :: name in naming.aliases <==> name in names)
            && (forall name <- naming.aliases :: naming.aliases[name] in naming.used && RuntimeName(naming.aliases[name]))
            && Injective(naming.aliases)
  {
    if names != [] {
      var n := |names| - 1;
      NamingIsSound(names[..n], valid);
      var naming := AssignAll(names[..n], valid);
      AliasIsValid(names[n], valid, naming.used);
      assert names == names[..n] + [names[n]];
    }
  }

  /** For every list of names, repeated ones too: each name has an alias the
      provider accepts, and no two names share one. */
  lemma AliasesAreSafeAndDistinct(names: seq<string>)
    requires |names| <= MAX_LIST
    ensures var aliases := AssignAll(names, ValidNames(names)).aliases;
            && (forall name :: name in aliases <==> name in names)
            && (forall name <- aliases :: RuntimeName(aliases[name]))
            && Injective(aliases)
  {
    NamingIsSound(names, ValidNames(names));
  }

  /** The lookup from alias to canonical name recovers every name. */
  method ReverseAliases(aliases: map<string, string>) returns (canonical: map<string, string>)
    ensures Injective(aliases) ==> forall name <- aliases :: aliases[name] in canonical && canonical[aliases[name]] == name
    ensures forall alias <- canonical :: canonical[alias] in aliases && aliases[canonical[alias]] == alias
  {
    canonical := map[];
    var left := aliases.Keys;
    while left != {}
      invariant left <= aliases.Keys
      invariant Injective(aliases) ==>
                  forall name <- aliases.Keys - left :: aliases[name] in canonical && canonical[aliases[name]] == name
      invariant forall alias <- canonical :: canonical[alias] in aliases && aliases[canonical[alias]] == alias
      decreases left
    {
      var name :| name in left;
      canonical := canonical[aliases[name] := name];
      left := left - {name};
    }
  }

  // ----- Who keeps an acceptable name -----

  predicate OccursOnce(names: seq<string>, i: nat) {
    i < |names| && forall j | 0 <= j < |names| && j != i :: names[j] != names[i]
  }

  /** The name could be made up for an earlier one: the hashed alias of that one,
      or one with a collision number it may come to. */
  predicate CouldBeMadeUp(names: seq<string>, i: nat, j: nat)
    requires j < i < |names|
  {
    names[i] == HashedAlias(names[j]) || exists c | 2 <= c <= j + 2 :: names[i] == Candidate(Normalized(names[j]), c)
  }

  lemma AssignedNames(names: seq<string>, n: nat, valid: set<string>)
    requires n < |names|
    ensures AssignAll(names[..n + 1], valid) == Assign(AssignAll(names[..n], valid), names[n], valid)
  {
    assert names[..n + 1][..n] == names[..n];
  }

  /** Every alias in use was given to some earlier name. */
  lemma {:induction false} UsedWasGiven(names: seq<string>, n: nat, valid: set<string>, alias: string) returns (j: nat)
    requires n <= |names| && alias in AssignAll(names[..n], valid).used
    ensures j < n && AliasFor(names[j], valid, AssignAll(names[..j], valid).used) == alias
  {
    assert n > 0;
    AssignedNames(names, n - 1, valid);
    if AliasFor(names[n - 1], valid, AssignAll(names[..n - 1], valid).used) == alias {
      j := n - 1;
    } else {
      j := UsedWasGiven(names, n - 1, valid, alias);
    }
  }

  lemma {:induction false} UsedAreFew(names: seq<string>, n: nat, valid: set<string>)
    requires n <= |names|
    ensures |AssignAll(names[..n], valid).used| <= n
  {
    if n > 0 {
      AssignedNames(names, n - 1, valid);
      UsedAreFew(names, n - 1, valid);
    }
  }

  lemma {:induction false} UsedStaysUsed(names: seq<string>, m: nat, n: nat, valid: set<string>)
    requires m <= n <= |names|
    ensures AssignAll(names[..m], valid).used <= AssignAll(names[..n], valid).used
    decreases n
  {
    if m < n {
      UsedStaysUsed(names, m, n - 1, valid);
      AssignedNames(names, n - 1, valid);
      var earlier := AssignAll(names[..n - 1], valid);
      assert AssignAll(names[..n], valid).used == earlier.used + {AliasFor(names[n - 1], valid, earlier.used)};
    }
  }

  /** An alias once set stays, as long as the name does not come again. */
  lemma {:induction false} AliasStays(names: seq<string>, i: nat, n: nat, valid: set<string>)
    requires OccursOnce(names, i) && i < n <= |names|
    ensures names[i] in AssignAll(names[..n], valid).aliases
    ensures AssignAll(names[..n], valid).aliases[names[i]] == AliasFor(names[i], valid, AssignAll(names[..i], valid).used)
    decreases n
  {
    AssignedNames(names, n - 1, valid);
    if i < n - 1 {
      AliasStays(names, i, n - 1, valid);
    }
  }

  /** An acceptable name that occurs once keeps itself unless its alias went to
      an earlier name. */
  lemma KeepsUnlessUsed(names: seq<string>, i: nat)
    requires OccursOnce(names, i) && RuntimeName(names[i])
    ensures names[i] in AssignAll(names, ValidNames(names)).aliases
    ensures AssignAll(names, ValidNames(names)).aliases[names[i]] == names[i]
            <==> names[i] !in AssignAll(names[..i], ValidNames(names)).used
  {
    AliasStays(names, i, |names|, ValidNames(names));
    assert names[..|names|] == names;
  }

  /** An acceptable name is only ever given away as a made-up one. */
  lemma GivenIsMadeUp(names: seq<string>, i: nat, j: nat)
    requires j < i && OccursOnce(names, i) && RuntimeName(names[i])
    requires AliasFor(names[j], ValidNames(names), AssignAll(names[..j], ValidNames(names)).used) == names[i]
    ensures CouldBeMadeUp(names, i, j)
  {
    var valid := ValidNames(names);
    var used := AssignAll(names[..j], valid).used;
    var name := names[j];
    assert names[i] in valid && name != names[i];
    var first := FirstAlias(name, valid, used);
    if first in used {
      var c := FreeCandidate(Normalized(name), used, 2).1;
      UsedAreFew(names, j, valid);
      assert 2 <= c <= j + 2 && names[i] == Candidate(Normalized(name), c);
    }
  }

  /** An acceptable name that occurs once keeps itself, wherever it stands, when
      it is no name that could be made up for an earlier one. */
  lemma ValidNameKeepsItself(names: seq<string>, i: nat)
    requires OccursOnce(names, i) && RuntimeName(names[i])
    requires forall j | 0 <= j < i :: !CouldBeMadeUp(names, i, j)
    ensures names[i] in AssignAll(names, ValidNames(names)).aliases
    ensures AssignAll(names, ValidNames(names)).aliases[names[i]] == names[i]
  {
    var valid := ValidNames(names);
    KeepsUnlessUsed(names, i);
    if names[i] in AssignAll(names[..i], valid).used {
      var j := UsedWasGiven(names, i, valid, names[i]);
      GivenIsMadeUp(names, i, j);
    }
  }

  /** What a name normalises to: its characters, the unsafe ones as underscores,
      without the underscores at both ends; and "tool" when nothing is left. */
  lemma NormalizedIs(name: string) returns (i: nat, j: nat)
    ensures i <= j <= |name|
    ensures forall k | 0 <= k < |name| && (k < i || k >= j) :: name[k] == '_' || !SafeChar(name[k])
    ensures i < j ==>
              && SafeChar(name[i]) && name[i] != '_' && SafeChar(name[j - 1]) && name[j - 1] != '_'
              && |Normalized(name)| == j - i
              && forall k | i <= k < j :: Normalized(name)[k - i] == if SafeChar(name[k]) then name[k] else '_'
    ensures i == j ==> Normalized(name) == "tool"
  {
    var s := Replaced(name);
    i := TrimmedLeft(s);
    var n := TrimmedRight(TrimLeft(s));
    j := i + n;
    forall k | 0 <= k < |name| && (k < i || k >= j)
      ensures name[k] == '_' || !SafeChar(name[k])
    {
      assert k >= j ==> s[k] == TrimLeft(s)[k - i];
      assert s[k] == '_';
    }
  }

  lemma {:induction false} TrimmedLeft(s: string) returns (i: nat)
    ensures i <= |s| && TrimLeft(s) == s[i..] && (forall k | 0 <= k < i :: s[k] == '_') && (i < |s| ==> s[i] != '_')
  {
    i := 0;
    if s != "" && s[0] == '_' {
      var k := TrimmedLeft(s[1..]);
      i := k + 1;
    }
  }

  lemma {:induction false} TrimmedRight(s: string) returns (n: nat)
    ensures n <= |s| && TrimRight(s) == s[..n] && (forall k | n <= k < |s| :: s[k] == '_') && (n > 0 ==> s[n - 1] != '_')
  {
    n := |s|;
    if s != "" && s[|s| - 1] == '_' {
      n := TrimmedRight(s[..|s| - 1]);
    }
  }

  /** The hash of a name is printed in base 36. */
  lemma NameHashIs(name: string)
    ensures forall i | 0 <= i < |NameHash(name)| :: IsDigit(NameHash(name)[i])
    ensures Stands(NameHash(name), 36) == HashFrom(name, 2166136261) as int
  {
    StandsForDigits(HashFrom(name, 2166136261) as int, 36);
  }

  lemma MixedVectors()
    ensures Mixed(2166136261, 97) == 0xE40C292C && Mixed(0xE40C292C, 98) == 0x4D2505CA
  {
  }

  lemma CharCodes()
    ensures 'a' as int as bv32 == 97 && 'b' as int as bv32 == 98
  {
  }

  /** Test vectors of 32-bit FNV-1a. */
  lemma HashVectors()
    ensures HashFrom("", 2166136261) == 0x811C9DC5
    ensures HashFrom("a", 2166136261) == 0xE40C292C
    ensures HashFrom("ab", 2166136261) == 0x4D2505CA
  {
    CharCodes();
    MixedVectors();
    assert "a"[1..] == "" && "ab"[1..] == "b" && "b"[1..] == "";
    assert HashFrom("b", 0xE40C292C) == HashFrom("", Mixed(0xE40C292C, 98));
    assert HashFrom("a", 2166136261) == HashFrom("", Mixed(2166136261, 97));
    assert HashFrom("ab", 2166136261) == HashFrom("b", Mixed(2166136261, 97));
  }

  /** An alias of at most 128 characters: what fits of the normalised name, with
      the suffix whole behind it. */
  lemma MadeUpAliases(name: string, c: nat)
    requires c < 10_000_000_000
    ensures PlainAlias(name) <= Normalized(name)
            && |PlainAlias(name)| == if |Normalized(name)| <= 128 then |Normalized(name)| else 128
    ensures exists k | 0 <= k <= |Normalized(name)| ::
              HashedAlias(name) == Normalized(name)[..k] + ("_" + NameHash(name))
              && (k == |Normalized(name)| || |HashedAlias(name)| == 128) && |HashedAlias(name)| <= 128
    ensures exists k | 0 <= k <= |Normalized(name)| ::
              Candidate(Normalized(name), c) == Normalized(name)[..k] + ("_" + Digits(c, 10))
              && (k == |Normalized(name)| || |Candidate(Normalized(name), c)| == 128) && |Candidate(Normalized(name), c)| <= 128
  {
    NameHashLength(name);
    assert Power(10, 10) == 10_000_000_000 by {
      assert Power(10, 4) == 10_000;
      assert Power(10, 7) == 10_000_000;
    }
    DigitsLength(c, 10, 10);
    var h := SuffixedIs(Normalized(name), "_" + NameHash(name));
    var k := SuffixedIs(Normalized(name), "_" + Digits(c, 10));
  }

  lemma SuffixedIs(normalized: string, suffix: string) returns (k: nat)
    requires |suffix| <= MAX_NAME
    ensures k <= |normalized| && WithSuffix(normalized, suffix) == normalized[..k] + suffix
    ensures (k == |normalized| || |WithSuffix(normalized, suffix)| == MAX_NAME) && |WithSuffix(normalized, suffix)| <= MAX_NAME
  {
    k := if |normalized| + |suffix| <= MAX_NAME then |normalized| else MAX_NAME - |suffix|;
    assert normalized[..|normalized|] == normalized;
  }

  lemma PlainAliasValid(name: string)
    ensures RuntimeName(PlainAlias(name))
  {
    NormalizedSafe(name);
  }

  /** The plain alias of the name at `j` is wanted by someone else as well: by an
      acceptable name anywhere, or by an earlier one that is not acceptable. */
  predicate Contested(names: seq<string>, j: nat)
    requires j < |names|
  {
    PlainAlias(names[j]) in ValidNames(names)
    || exists k | 0 <= k < j :: !RuntimeName(names[k]) && PlainAlias(names[k]) == PlainAlias(names[j])
  }

  lemma ContestedIsTaken(names: seq<string>, j: nat)
    requires j < |names| && Contested(names, j)
    ensures PlainAlias(names[j]) in ValidNames(names) + AssignAll(names[..j], ValidNames(names)).used
  {
    var valid := ValidNames(names);
    if PlainAlias(names[j]) !in valid {
      var k :| 0 <= k < j && !RuntimeName(names[k]) && PlainAlias(names[k]) == PlainAlias(names[j]);
      PlainAliasValid(names[k]);
      AssignedNames(names, k, valid);
      UsedStaysUsed(names, k, j, valid);
      UsedStaysUsed(names, k + 1, j, valid);
    }
  }

  /** It loses itself when it is the hashed alias of an earlier unacceptable
      name whose plain alias is contested. */
  lemma ValidNameIsLost(names: seq<string>, i: nat, j: nat)
    requires j < i && OccursOnce(names, i) && RuntimeName(names[i])
    requires !RuntimeName(names[j]) && Contested(names, j) && HashedAlias(names[j]) == names[i]
    ensures names[i] in AssignAll(names, ValidNames(names)).aliases
    ensures AssignAll(names, ValidNames(names)).aliases[names[i]] != names[i]
  {
    var valid := ValidNames(names);
    KeepsUnlessUsed(names, i);
    ContestedIsTaken(names, j);
    AssignedNames(names, j, valid);
    UsedStaysUsed(names, j, i, valid);
    UsedStaysUsed(names, j + 1, i, valid);
  }

  /** The names before `i` are different, and no hashed alias of one is the
      hashed, the plain or the own name of another: no number is ever needed. */
  predicate NoClash(names: seq<string>, i: nat)
    requires i <= |names|
  {
    forall j, k | 0 <= j < i && 0 <= k < i && j != k ::
      && names[j] != names[k]
      && HashedAlias(names[j]) != HashedAlias(names[k])
      && HashedAlias(names[j]) != PlainAlias(names[k])
      && HashedAlias(names[j]) != names[k]
  }

  /** What a name gets when no number is needed. */
  function Direct(names: seq<string>, j: nat): string
    requires j < |names|
  {
    if RuntimeName(names[j]) then names[j]
    else if Contested(names, j) then HashedAlias(names[j])
    else PlainAlias(names[j])
  }

  predicate GivenDirectly(names: seq<string>, j: nat)
    requires j < |names|
  {
    AliasFor(names[j], ValidNames(names), AssignAll(names[..j], ValidNames(names)).used) == Direct(names, j)
  }

  lemma DirectIsFree(names: seq<string>, n: nat, j: nat, k: nat)
    requires k < j < n <= |names| && NoClash(names, n)
    ensures RuntimeName(names[j]) ==> Direct(names, k) != names[j]
    ensures !RuntimeName(names[j]) && Direct(names, k) == PlainAlias(names[j]) ==> Contested(names, j)
    ensures Direct(names, k) != HashedAlias(names[j])
  {
    assert RuntimeName(names[j]) ==> names[j] in ValidNames(names);
    assert RuntimeName(names[k]) ==> names[k] in ValidNames(names);
  }

  lemma UsedDirectly(names: seq<string>, j: nat, alias: string) returns (k: nat)
    requires j <= |names| && forall k | 0 <= k < j :: GivenDirectly(names, k)
    requires alias in AssignAll(names[..j], ValidNames(names)).used
    ensures k < j && Direct(names, k) == alias
  {
    k := UsedWasGiven(names, j, ValidNames(names), alias);
    assert GivenDirectly(names, k);
  }

  lemma NotUsedDirectly(names: seq<string>, j: nat, alias: string)
    requires j <= |names| && forall k | 0 <= k < j :: GivenDirectly(names, k)
    requires forall k | 0 <= k < j :: Direct(names, k) != alias
    ensures alias !in AssignAll(names[..j], ValidNames(names)).used
  {
    if alias in AssignAll(names[..j], ValidNames(names)).used {
      var k := UsedDirectly(names, j, alias);
    }
  }

  lemma DirectUses(names: seq<string>, i: nat, j: nat)
    requires j < i <= |names| && NoClash(names, i) && forall k | 0 <= k < j :: GivenDirectly(names, k)
    ensures var used := AssignAll(names[..j], ValidNames(names)).used;
            && (RuntimeName(names[j]) ==> names[j] !in used)
            && (!RuntimeName(names[j]) && !Contested(names, j) ==> PlainAlias(names[j]) !in used)
            && HashedAlias(names[j]) !in used
  {
    forall k | 0 <= k < j
      ensures RuntimeName(names[j]) ==> Direct(names, k) != names[j]
      ensures !RuntimeName(names[j]) && !Contested(names, j) ==> Direct(names, k) != PlainAlias(names[j])
      ensures Direct(names, k) != HashedAlias(names[j])
    {
      DirectIsFree(names, i, j, k);
    }
    NotUsedDirectly(names, j, HashedAlias(names[j]));
    if RuntimeName(names[j]) {
      NotUsedDirectly(names, j, names[j]);
    } else if !Contested(names, j) {
      NotUsedDirectly(names, j, PlainAlias(names[j]));
    }
  }

  lemma {:induction false} AllGivenDirectly(names: seq<string>, n: nat, i: nat)
    requires n <= i <= |names| && NoClash(names, i)
    ensures forall j | 0 <= j < n :: GivenDirectly(names, j)
  {
    if n > 0 {
      var j := n - 1;
      AllGivenDirectly(names, j, i);
      DirectUses(names, i, j);
      PlainAliasValid(names[j]);
      if Contested(names, j) {
        ContestedIsTaken(names, j);
      } else {
        assert PlainAlias(names[j]) !in ValidNames(names);
      }
    }
  }

  /** So, where names do not clash, an acceptable name that occurs once loses
      itself exactly when it is the hashed alias of an earlier unacceptable name
      whose plain alias is contested. */
  lemma ValidNameKeepsItselfIff(names: seq<string>, i: nat)
    requires OccursOnce(names, i) && RuntimeName(names[i]) && NoClash(names, i)
    ensures names[i] in AssignAll(names, ValidNames(names)).aliases
    ensures AssignAll(names, ValidNames(names)).aliases[names[i]] == names[i]
            <==> forall j | 0 <= j < i && !RuntimeName(names[j]) && Contested(names, j) :: HashedAlias(names[j]) != names[i]
  {
    var valid := ValidNames(names);
    KeepsUnlessUsed(names, i);
    if j :| 0 <= j < i && !RuntimeName(names[j]) && Contested(names, j) && HashedAlias(names[j]) == names[i] {
      ValidNameIsLost(names, i, j);
    } else if names[i] in AssignAll(names[..i], valid).used {
      var j := UsedWasGiven(names, i, valid, names[i]);
      AllGivenDirectly(names, i, i);
      assert GivenDirectly(names, j) && names[i] in valid;
    }
  }

  lemma HashedIsLonger(name: string)
    requires |Normalized(name)| <= 120
    ensures |HashedAlias(name)| > |Normalized(name)|
  {
    NameHashLength(name);
  }

  /** Such lists exist: an unacceptable name of moderate length, the name it
      normalises to, and its hashed alias. All three are different. */
  lemma ValidNameCanBeTaken(name: string)
    requires !RuntimeName(name) && |Normalized(name)| <= 120
    ensures var names := [name, Normalized(name), HashedAlias(name)];
            && RuntimeName(names[1]) && RuntimeName(names[2])
            && names[0] != names[1] && names[1] != names[2] && names[0] != names[2]
            && names[2] in AssignAll(names, ValidNames(names)).aliases
            && AssignAll(names, ValidNames(names)).aliases[names[2]] != names[2]
  {
    var names := [name, Normalized(name), HashedAlias(name)];
    NormalizedSafe(name);
    NameHashLength(name);
    WithSuffixValid(Normalized(name), "_" + NameHash(name));
    HashedIsLonger(name);
    assert names[1] in names && names[1] in ValidNames(names);
    ValidNameIsLost(names, 2, 0);
  }
}
