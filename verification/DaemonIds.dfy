/**
 * The three spellings of one daemon (bare, `daemon_` and `standalone_` forms of a
 * `mach_` machine id): the core they share, the canonical spelling, and the expansion
 * that lets an exact-string filter match any of them.
 */
module DaemonIds {
  import opened Basics
  import opened Ordered
  import Text

  const DAEMON_PREFIX := "daemon_"
  const STANDALONE_PREFIX := "standalone_"
  const MACHINE_PREFIX := "mach_"

  /** The first non-blank string, trimmed. */
  function ReadString(id: Option<string>): (r: Option<string>) {
    if id.Some? && Text.Trim(id.value) != "" then Some(Text.Trim(id.value)) else None
  }

  predicate StartsWith(s: string, prefix: string) { prefix <= s }

  /** Case-insensitive prefix test; every prefix is lower-case ASCII. */
  predicate HasPrefix(s: string, prefix: string) {
    StartsWith(Text.Lower(s), prefix)
  }

  /** Lower-cases a leading `mach_`, in any case, and leaves the rest alone. */
  function LowerMachine(s: string): (r: string) {
    if HasPrefix(s, MACHINE_PREFIX) then MACHINE_PREFIX + s[5..] else s
  }

  /** What follows the first daemon prefix the string carries; the string itself if it carries none. */
  function Stripped(s: string): (r: string)
    requires Text.Trimmed(s)
    ensures Text.Trimmed(r)
  {
    if HasPrefix(s, DAEMON_PREFIX) then Text.Trim(s[7..])
    else if HasPrefix(s, STANDALONE_PREFIX) then Text.Trim(s[11..])
    else s
  }

  function MachineCore(id: Option<string>): (core: Option<string>) {
    var trimmed := ReadString(id);
    if trimmed.None? then None
    else
      var core := Stripped(trimmed.value);
      if core == "" then None else Some(LowerMachine(core))
  }

  function Canonical(id: Option<string>): (r: Option<string>) {
    var core := MachineCore(id);
    if core.None? then None
    else if !HasPrefix(core.value, MACHINE_PREFIX) then core
    else Some(DAEMON_PREFIX + MACHINE_PREFIX + core.value[5..])
  }

  predicate Equivalent(a: Option<string>, b: Option<string>) {
    MachineCore(a).Some? && MachineCore(b).Some? && MachineCore(a) == MachineCore(b)
  }

  /** The derived spellings of an id, in the order they are added. */
  function DerivedForms(id: Option<string>): (forms: seq<string>) {
    var core := MachineCore(id);
    if core.None? || !StartsWith(core.value, MACHINE_PREFIX) then []
    else [core.value, DAEMON_PREFIX + core.value, STANDALONE_PREFIX + core.value]
  }

  function AddAll(out: seq<string>, forms: seq<string>): (r: seq<string>)
    decreases |forms|
  {
    if forms == [] then out else AddAll(Include(out, forms[0]), forms[1..])
  }

  function Originals(out: seq<string>, ids: seq<Option<string>>): (r: seq<string>)
    decreases |ids|
  {
    if ids == [] then out
    else Originals(if ReadString(ids[0]).Some? then Include(out, ReadString(ids[0]).value) else out, ids[1..])
  }

  function Derived(out: seq<string>, ids: seq<Option<string>>): (r: seq<string>)
    decreases |ids|
  {
    if ids == [] then out else Derived(AddAll(out, DerivedForms(ids[0])), ids[1..])
  }

  function Expand(ids: seq<Option<string>>): (out: seq<string>) {
    Derived(Originals([], ids), ids)
  }

  // ----- The source's loops -----

  method ExpandDaemonIdForms(ids: seq<Option<string>>) returns (out: seq<string>)
    ensures out == Expand(ids)
  {
    hide ReadString, DerivedForms, MachineCore, StartsWith;
    out := [];
    for i := 0 to |ids|
      invariant Originals(out, ids[i..]) == Originals([], ids)
    {
      var value := ReadString(ids[i]);
      if value.Some? && value.value !in out {
        out := out + [value.value];
      }
    }
    ghost var originals := out;
    for i := 0 to |ids|
      invariant Derived(out, ids[i..]) == Derived(originals, ids)
    {
      var forms := DerivedForms(ids[i]);
      ghost var before := out;
      for j := 0 to |forms|
        invariant AddAll(out, forms[j..]) == AddAll(before, forms)
      {
        if forms[j] !in out {
          out := out + [forms[j]];
        }
      }
    }
  }

  // ----- Spellings of one machine -----

  predicate IsMachine(core: string) { Text.Trimmed(core) && StartsWith(core, MACHINE_PREFIX) }

  predicate Prefixed(s: string) { HasPrefix(s, DAEMON_PREFIX) || HasPrefix(s, STANDALONE_PREFIX) }

  lemma PrefixLengths()
    ensures |DAEMON_PREFIX| == 7 && |STANDALONE_PREFIX| == 11 && |MACHINE_PREFIX| == 5
    ensures DAEMON_PREFIX[0] == 'd' && STANDALONE_PREFIX[0] == 's' && MACHINE_PREFIX[0] == 'm'
  {
  }

  lemma PrefixesAreLowerCase()
    ensures Text.Lower(DAEMON_PREFIX) == DAEMON_PREFIX && Text.Lower(STANDALONE_PREFIX) == STANDALONE_PREFIX
    ensures Text.Lower(MACHINE_PREFIX) == MACHINE_PREFIX
  {
  }

  lemma LowerOfConcat(a: string, b: string)
    ensures Text.Lower(a + b) == Text.Lower(a) + Text.Lower(b)
  {
  }

  lemma PrefixTest(prefix: string, rest: string)
    requires prefix == DAEMON_PREFIX || prefix == STANDALONE_PREFIX || prefix == MACHINE_PREFIX
    ensures HasPrefix(prefix + rest, prefix)
  {
    PrefixesAreLowerCase();
    LowerOfConcat(prefix, rest);
    hide Text.Lower, DAEMON_PREFIX, STANDALONE_PREFIX, MACHINE_PREFIX;
  }

  lemma LowerMachineLaws(s: string)
    requires Text.Trimmed(s) && s != ""
    ensures var r := LowerMachine(s);
            && Text.Trimmed(r) && |r| == |s| && LowerMachine(r) == r
            && (HasPrefix(r, MACHINE_PREFIX) <==> StartsWith(r, MACHINE_PREFIX))
  {
    PrefixLengths();
    hide DAEMON_PREFIX, STANDALONE_PREFIX, MACHINE_PREFIX;
    if HasPrefix(s, MACHINE_PREFIX) {
      var r := MACHINE_PREFIX + s[5..];
      PrefixTest(MACHINE_PREFIX, s[5..]);
      assert r[5..] == s[5..];
      assert r[0] == 'm' && !Text.IsSpace(r[0]);
      assert |s| > 5 ==> r[|s| - 1] == s[|s| - 1];
      assert |s| == 5 ==> r == MACHINE_PREFIX;
      MachinePrefixIsTrimmed();
    } else if StartsWith(s, MACHINE_PREFIX) {
      assert s == MACHINE_PREFIX + s[5..];
      PrefixTest(MACHINE_PREFIX, s[5..]);
    }
  }

  lemma MachinePrefixIsTrimmed()
    ensures Text.Trimmed(MACHINE_PREFIX)
  {
  }

  lemma CoreIsTrimmed(id: Option<string>)
    requires MachineCore(id).Some?
    ensures var core := MachineCore(id).value;
            && Text.Trimmed(core) && core != "" && ReadString(Some(core)) == Some(core)
            && (HasPrefix(core, MACHINE_PREFIX) <==> IsMachine(core)) && LowerMachine(core) == core
  {
    hide Text.Trim, Stripped, LowerMachine, HasPrefix, StartsWith, DAEMON_PREFIX, STANDALONE_PREFIX, MACHINE_PREFIX;
    LowerMachineLaws(Stripped(ReadString(id).value));
  }

  lemma CoreReadsTrimmed(id: Option<string>)
    requires ReadString(id).Some?
    ensures MachineCore(id) == MachineCore(ReadString(id))
  {
    hide Text.Trim, Stripped, LowerMachine;
  }

  lemma BareForm(m: string)
    requires IsMachine(m)
    ensures MachineCore(Some(m)) == Some(m) && !Prefixed(m) && LowerMachine(m) == m
  {
    PrefixLengths();
    hide Text.Trim, DAEMON_PREFIX, STANDALONE_PREFIX, MACHINE_PREFIX;
    assert m == MACHINE_PREFIX + m[5..];
    PrefixTest(MACHINE_PREFIX, m[5..]);
    assert m[0] == 'm' && Text.Lower(m)[0] == 'm';
  }

  lemma TrimmedTail(prefix: string, x: string)
    requires prefix == DAEMON_PREFIX || prefix == STANDALONE_PREFIX
    requires Text.Trimmed(x) && x != ""
    ensures Text.Trimmed(prefix + x) && (prefix + x)[|prefix|..] == x
  {
    PrefixLengths();
    hide DAEMON_PREFIX, STANDALONE_PREFIX, MACHINE_PREFIX;
    var y := prefix + x;
    assert y[0] == prefix[0] && y[|y| - 1] == x[|x| - 1];
  }

  lemma DaemonPrefixed(x: string)
    requires Text.Trimmed(x) && x != ""
    ensures MachineCore(Some(DAEMON_PREFIX + x)) == Some(LowerMachine(x))
  {
    PrefixLengths();
    hide Text.Trim, Text.Trimmed, HasPrefix, LowerMachine, DAEMON_PREFIX, STANDALONE_PREFIX, MACHINE_PREFIX;
    TrimmedTail(DAEMON_PREFIX, x);
    PrefixTest(DAEMON_PREFIX, x);
    assert Stripped(DAEMON_PREFIX + x) == x;
    hide Stripped;
  }

  lemma StandalonePrefixed(x: string)
    requires Text.Trimmed(x) && x != ""
    ensures MachineCore(Some(STANDALONE_PREFIX + x)) == Some(LowerMachine(x))
    ensures LowerMachine(STANDALONE_PREFIX + x) == STANDALONE_PREFIX + x
  {
    PrefixLengths();
    hide Text.Trim, Text.Trimmed, DAEMON_PREFIX, STANDALONE_PREFIX, MACHINE_PREFIX;
    TrimmedTail(STANDALONE_PREFIX, x);
    PrefixTest(STANDALONE_PREFIX, x);
    assert !HasPrefix(STANDALONE_PREFIX + x, DAEMON_PREFIX) && !HasPrefix(STANDALONE_PREFIX + x, MACHINE_PREFIX) by {
      assert (STANDALONE_PREFIX + x)[0] == 's';
      assert Text.Lower(STANDALONE_PREFIX + x)[0] == 's';
    }
    assert LowerMachine(STANDALONE_PREFIX + x) == STANDALONE_PREFIX + x;
    hide HasPrefix, LowerMachine;
    assert Stripped(STANDALONE_PREFIX + x) == x;
    hide Stripped;
  }

  lemma CloudForm(m: string)
    requires IsMachine(m)
    ensures MachineCore(Some(DAEMON_PREFIX + m)) == Some(m)
    ensures Text.Trimmed(DAEMON_PREFIX + m)
  {
    PrefixLengths();
    hide MachineCore, LowerMachine, DAEMON_PREFIX, STANDALONE_PREFIX, MACHINE_PREFIX;
    BareForm(m);
    TrimmedTail(DAEMON_PREFIX, m);
    DaemonPrefixed(m);
  }

  lemma StandaloneForm(m: string)
    requires IsMachine(m)
    ensures MachineCore(Some(STANDALONE_PREFIX + m)) == Some(m)
    ensures Text.Trimmed(STANDALONE_PREFIX + m)
  {
    PrefixLengths();
    hide MachineCore, LowerMachine, DAEMON_PREFIX, STANDALONE_PREFIX, MACHINE_PREFIX;
    BareForm(m);
    TrimmedTail(STANDALONE_PREFIX, m);
    StandalonePrefixed(m);
  }

  // ----- The canonical form -----

  lemma CanonicalOfCore(id: Option<string>)
    requires MachineCore(id).Some?
    ensures var core := MachineCore(id).value;
            Canonical(id) == if IsMachine(core) then Some(DAEMON_PREFIX + core) else Some(core)
  {
    PrefixLengths();
    hide Text.Trim, MachineCore, HasPrefix, DAEMON_PREFIX, STANDALONE_PREFIX, MACHINE_PREFIX;
    CoreIsTrimmed(id);
    var core := MachineCore(id).value;
    if IsMachine(core) {
      assert core == MACHINE_PREFIX + core[5..];
      assert DAEMON_PREFIX + MACHINE_PREFIX + core[5..] == DAEMON_PREFIX + core;
    }
  }

  lemma StrippedGetsShorter(s: string)
    requires Text.Trimmed(s) && Prefixed(s)
    ensures |Stripped(s)| < |s|
  {
    PrefixLengths();
    hide Text.Trim, DAEMON_PREFIX, STANDALONE_PREFIX;
  }

  /** Canonicalizing a core: what the second application of the canonicalizer sees. */
  lemma CoreOfCore(id: Option<string>)
    requires MachineCore(id).Some?
    ensures var core := MachineCore(id).value;
            MachineCore(Some(core)) ==
              if !Prefixed(core) then Some(core)
              else if Stripped(core) == "" then None
              else Some(LowerMachine(Stripped(core)))
  {
    hide Text.Trim, LowerMachine, HasPrefix, DAEMON_PREFIX, STANDALONE_PREFIX, MACHINE_PREFIX;
    CoreIsTrimmed(id);
  }

  /**
   * The documentation calls canonicalization idempotent. Exactly when it is: there is no
   * core, or the core carries no second daemon prefix, or it is spelled `daemon_mach_...`
   * already.
   */
  lemma CanonicalIsIdempotentIff(id: Option<string>)
    ensures var core := MachineCore(id);
            Canonical(Canonical(id)) == Canonical(id) <==>
              core.None? || !Prefixed(core.value) || StartsWith(core.value, DAEMON_PREFIX + MACHINE_PREFIX)
  {
    hide MachineCore, Canonical, HasPrefix, DAEMON_PREFIX, STANDALONE_PREFIX, MACHINE_PREFIX;
    NoCoreNoCanonical(None);
    if MachineCore(id).None? {
      NoCoreNoCanonical(id);
      return;
    }
    var core := MachineCore(id).value;
    CoreIsTrimmed(id);
    CanonicalOfCore(id);
    if IsMachine(core) {
      BareForm(core);
      CloudForm(core);
      CanonicalOfCore(Some(DAEMON_PREFIX + core));
    } else if !Prefixed(core) {
      CoreOfCore(id);
      CanonicalOfCore(Some(core));
    } else {
      SecondPrefix(id, core);
    }
  }

  lemma DaemonMachineSplits(core: string)
    requires Text.Trimmed(core) && StartsWith(core, DAEMON_PREFIX + MACHINE_PREFIX)
    ensures core == DAEMON_PREFIX + core[7..] && IsMachine(core[7..])
  {
    PrefixLengths();
    hide DAEMON_PREFIX, STANDALONE_PREFIX, MACHINE_PREFIX;
    var m := core[7..];
    assert core[..12] == DAEMON_PREFIX + MACHINE_PREFIX;
    assert core[..7] == (DAEMON_PREFIX + MACHINE_PREFIX)[..7] == DAEMON_PREFIX;
    assert m[..5] == core[7..12] == (DAEMON_PREFIX + MACHINE_PREFIX)[7..12] == MACHINE_PREFIX;
    assert m[|m| - 1] == core[|core| - 1] && m[0] == MACHINE_PREFIX[0];
  }

  lemma SecondPrefix(id: Option<string>, core: string)
    requires MachineCore(id) == Some(core) && !IsMachine(core) && Prefixed(core)
    ensures Canonical(Some(core)) == Some(core) <==> StartsWith(core, DAEMON_PREFIX + MACHINE_PREFIX)
  {
    PrefixLengths();
    hide MachineCore, Canonical, Stripped, LowerMachine, HasPrefix, DAEMON_PREFIX, STANDALONE_PREFIX, MACHINE_PREFIX;
    CoreIsTrimmed(id);
    if StartsWith(core, DAEMON_PREFIX + MACHINE_PREFIX) {
      DaemonMachineSplits(core);
      CloudForm(core[7..]);
      CanonicalOfCore(Some(core));
    } else {
      CoreOfCore(id);
      StrippedGetsShorter(core);
      if Stripped(core) == "" {
        NoCoreNoCanonical(Some(core));
      } else {
        CanonicalOfCore(Some(core));
        LowerMachineLaws(Stripped(core));
        var inner := MachineCore(Some(core)).value;
        if IsMachine(inner) {
          DaemonFormStarts(inner);
        }
      }
    }
  }

  lemma DaemonFormStarts(m: string)
    requires IsMachine(m)
    ensures StartsWith(DAEMON_PREFIX + m, DAEMON_PREFIX + MACHINE_PREFIX)
  {
    PrefixLengths();
    hide DAEMON_PREFIX, STANDALONE_PREFIX, MACHINE_PREFIX;
    assert DAEMON_PREFIX + m == DAEMON_PREFIX + MACHINE_PREFIX + m[5..];
  }

  lemma NoCoreNoCanonical(id: Option<string>)
    ensures MachineCore(id).None? <==> Canonical(id).None?
    ensures MachineCore(None).None?
  {
    hide Text.Trim, Stripped, LowerMachine, HasPrefix;
  }

  /** The spellings that need two applications: a `standalone_` form behind a `daemon_` prefix. */
  lemma CanonicalIsNotIdempotent(m: string)
    requires IsMachine(m)
    ensures var x := STANDALONE_PREFIX + m;
            && Canonical(Some(DAEMON_PREFIX + x)) == Some(x)
            && Canonical(Some(x)) == Some(DAEMON_PREFIX + m)
            && Some(x) != Some(DAEMON_PREFIX + m)
  {
    PrefixLengths();
    hide Text.Trim, Canonical, DAEMON_PREFIX, STANDALONE_PREFIX, MACHINE_PREFIX;
    var x := STANDALONE_PREFIX + m;
    StandaloneForm(m);
    CanonicalOfCore(Some(x));
    DaemonBeforeStandalone(m);
    CanonicalOfCore(Some(DAEMON_PREFIX + x));
    hide MachineCore;
    assert x[0] == 's' && (DAEMON_PREFIX + m)[0] == 'd';
  }

  lemma DaemonBeforeStandalone(m: string)
    requires IsMachine(m)
    ensures MachineCore(Some(DAEMON_PREFIX + (STANDALONE_PREFIX + m))) == Some(STANDALONE_PREFIX + m)
  {
    PrefixLengths();
    hide MachineCore, LowerMachine, DAEMON_PREFIX, STANDALONE_PREFIX, MACHINE_PREFIX;
    StandaloneForm(m);
    StandalonePrefixed(m);
    DaemonPrefixed(STANDALONE_PREFIX + m);
  }

  /**
   * Exactly which ids share a canonical form: those without a core, the equivalent ones,
   * and one whose core still reads `daemon_mach_...` with the machine it names.
   */
  lemma SameCanonicalIff(a: Option<string>, b: Option<string>)
    ensures Canonical(a) == Canonical(b) <==>
              || (MachineCore(a).None? && MachineCore(b).None?)
              || (MachineCore(a).Some? && MachineCore(b).Some?
                  && SameCanonicalCores(MachineCore(a).value, MachineCore(b).value))
  {
    PrefixLengths();
    hide MachineCore, Canonical, DAEMON_PREFIX, STANDALONE_PREFIX, MACHINE_PREFIX;
    NoCoreNoCanonical(a);
    NoCoreNoCanonical(b);
    if MachineCore(a).Some? && MachineCore(b).Some? {
      CanonicalOfCore(a);
      CanonicalOfCore(b);
      var ca, cb := MachineCore(a).value, MachineCore(b).value;
      DaemonFormIsNoMachine(ca);
      DaemonFormIsNoMachine(cb);
      if DAEMON_PREFIX + ca == DAEMON_PREFIX + cb {
        assert (DAEMON_PREFIX + ca)[7..] == ca && (DAEMON_PREFIX + cb)[7..] == cb;
      }
    }
  }

  /** Equal cores, or a machine and the same machine behind a leftover `daemon_`. */
  predicate SameCanonicalCores(a: string, b: string) {
    || a == b
    || (IsMachine(a) && b == DAEMON_PREFIX + a)
    || (IsMachine(b) && a == DAEMON_PREFIX + b)
  }

  lemma DaemonFormIsNoMachine(core: string)
    ensures !IsMachine(DAEMON_PREFIX + core)
  {
    PrefixLengths();
    assert (DAEMON_PREFIX + core)[0] == 'd';
  }

  /** For ids whose cores carry no second prefix, equal canonical forms mean equivalent ids. */
  lemma CanonicalDecidesEquivalence(a: Option<string>, b: Option<string>)
    requires MachineCore(a).Some? && !Prefixed(MachineCore(a).value)
    requires MachineCore(b).Some? && !Prefixed(MachineCore(b).value)
    ensures Canonical(a) == Canonical(b) <==> Equivalent(a, b)
  {
    hide MachineCore, Canonical, HasPrefix, DAEMON_PREFIX, STANDALONE_PREFIX, MACHINE_PREFIX;
    SameCanonicalIff(a, b);
    PrefixTest(DAEMON_PREFIX, MachineCore(a).value);
    PrefixTest(DAEMON_PREFIX, MachineCore(b).value);
  }

  // ----- The expansion -----

  lemma {:induction false} AddAllEffect(out: seq<string>, forms: seq<string>)
    ensures var r := AddAll(out, forms);
            && (forall x :: x in r <==> x in out || x in forms)
            && out <= r && (Distinct(out) ==> Distinct(r))
    decreases |forms|
  {
    if forms == [] {
    } else {
      AddAllEffect(Include(out, forms[0]), forms[1..]);
      assert forall x :: x in forms <==> x == forms[0] || x in forms[1..];
    }
  }

  /** `x` is one of the listed ids, trimmed. */
  ghost predicate Listed(ids: seq<Option<string>>, x: string) {
    exists i :: 0 <= i < |ids| && ReadString(ids[i]) == Some(x)
  }

  /** `x` is a derived spelling of one of the listed ids. */
  ghost predicate DerivedFrom(ids: seq<Option<string>>, x: string) {
    exists i :: 0 <= i < |ids| && x in DerivedForms(ids[i])
  }

  lemma {:induction false} OriginalsEffect(out: seq<string>, ids: seq<Option<string>>)
    ensures var r := Originals(out, ids);
            && (forall x :: x in r <==> x in out || Listed(ids, x))
            && out <= r && (Distinct(out) ==> Distinct(r))
    decreases |ids|
  {
    hide ReadString;
    if ids == [] {
    } else {
      var next := if ReadString(ids[0]).Some? then Include(out, ReadString(ids[0]).value) else out;
      OriginalsEffect(next, ids[1..]);
      forall x
        ensures Listed(ids, x) <==> ReadString(ids[0]) == Some(x) || Listed(ids[1..], x)
      {
        if Listed(ids[1..], x) {
          var i :| 0 <= i < |ids[1..]| && ReadString(ids[1..][i]) == Some(x);
          assert ReadString(ids[i + 1]) == Some(x);
        }
        if Listed(ids, x) && ReadString(ids[0]) != Some(x) {
          var i :| 0 <= i < |ids| && ReadString(ids[i]) == Some(x);
          assert ReadString(ids[1..][i - 1]) == Some(x);
        }
      }
      hide Listed;
    }
  }

  lemma {:induction false} DerivedEffect(out: seq<string>, ids: seq<Option<string>>)
    ensures var r := Derived(out, ids);
            && (forall x :: x in r <==> x in out || DerivedFrom(ids, x))
            && out <= r && (Distinct(out) ==> Distinct(r))
    decreases |ids|
  {
    hide DerivedForms;
    if ids == [] {
    } else {
      var next := AddAll(out, DerivedForms(ids[0]));
      AddAllEffect(out, DerivedForms(ids[0]));
      DerivedEffect(next, ids[1..]);
      forall x
        ensures DerivedFrom(ids, x) <==> x in DerivedForms(ids[0]) || DerivedFrom(ids[1..], x)
      {
        if DerivedFrom(ids[1..], x) {
          var i :| 0 <= i < |ids[1..]| && x in DerivedForms(ids[1..][i]);
          assert x in DerivedForms(ids[i + 1]);
        }
        if DerivedFrom(ids, x) && x !in DerivedForms(ids[0]) {
          var i :| 0 <= i < |ids| && x in DerivedForms(ids[i]);
          assert x in DerivedForms(ids[1..][i - 1]);
        }
      }
      hide DerivedFrom, AddAll;
    }
  }

  /** The expansion holds the listed ids and their derived spellings, the listed ones first, each once. */
  lemma {:induction false} ExpansionContents(ids: seq<Option<string>>)
    ensures var out := Expand(ids);
            && Distinct(out) && Originals([], ids) <= out
            && (forall x :: x in Originals([], ids) <==> Listed(ids, x))
            && (forall x :: x in out <==> Listed(ids, x) || DerivedFrom(ids, x))
  {
    hide Listed, DerivedFrom, Originals, Derived;
    OriginalsEffect([], ids);
    DerivedEffect(Originals([], ids), ids);
  }

  // ----- The listed ids come first, in input order -----

  lemma {:induction false} OriginalsSnoc(out: seq<string>, ids: seq<Option<string>>, id: Option<string>)
    ensures Originals(out, ids + [id]) ==
            if ReadString(id).Some? then Include(Originals(out, ids), ReadString(id).value) else Originals(out, ids)
    decreases |ids|
  {
    hide ReadString;
    if ids == [] {
      assert ids + [id] == [id] && [id][1..] == [];
    } else {
      assert (ids + [id])[1..] == ids[1..] + [id];
      OriginalsSnoc(if ReadString(ids[0]).Some? then Include(out, ReadString(ids[0]).value) else out, ids[1..], id);
    }
  }

  /** `x` is listed at a place before which, and at which, `y` is not. */
  ghost predicate ListedBefore(ids: seq<Option<string>>, x: string, y: string) {
    exists i :: 0 <= i < |ids| && ReadString(ids[i]) == Some(x) && NotAmongFirst(ids, i + 1, y)
  }

  ghost predicate NotAmongFirst(ids: seq<Option<string>>, n: nat, y: string) {
    forall j :: 0 <= j < n && j < |ids| ==> ReadString(ids[j]) != Some(y)
  }

  lemma LaterIdsDoNotMatter(ids: seq<Option<string>>, id: Option<string>, x: string, y: string)
    requires ListedBefore(ids, x, y)
    ensures ListedBefore(ids + [id], x, y)
  {
    hide ReadString;
    var i :| 0 <= i < |ids| && ReadString(ids[i]) == Some(x) && NotAmongFirst(ids, i + 1, y);
    assert ReadString((ids + [id])[i]) == Some(x) && NotAmongFirst(ids + [id], i + 1, y);
  }

  lemma NewIdComesLast(ids: seq<Option<string>>, id: Option<string>, x: string, y: string)
    requires Listed(ids, x) && !Listed(ids, y)
    ensures ListedBefore(ids + [id], x, y)
  {
    hide ReadString;
    var i :| 0 <= i < |ids| && ReadString(ids[i]) == Some(x);
    assert ReadString((ids + [id])[i]) == Some(x) && NotAmongFirst(ids + [id], i + 1, y);
  }

  /** The listed ids appear in the order of their first occurrences in the input. */
  lemma {:induction false} OriginalsKeepInputOrder(ids: seq<Option<string>>, p: nat, q: nat)
    requires p < q < |Originals([], ids)|
    ensures ListedBefore(ids, Originals([], ids)[p], Originals([], ids)[q])
    decreases |ids|
  {
    hide ReadString, ListedBefore, Originals;
    if ids == [] {
      assert Originals([], ids) == [] by {
        NoOriginals();
      }
    } else {
      var n := |ids| - 1;
      var shorter := Originals([], ids[..n]);
      assert ids == ids[..n] + [ids[n]];
      OriginalsSnoc([], ids[..n], ids[n]);
      OriginalsEffect([], ids[..n]);
      if q < |shorter| {
        OriginalsKeepInputOrder(ids[..n], p, q);
        LaterIdsDoNotMatter(ids[..n], ids[n], shorter[p], shorter[q]);
      } else {
        assert shorter[p] in shorter;
        NewIdComesLast(ids[..n], ids[n], shorter[p], ReadString(ids[n]).value);
      }
    }
  }

  lemma NoOriginals()
    ensures Originals([], []) == []
  {
  }

  /** `x` is the first id that is not blank. */
  ghost predicate FirstNonBlank(ids: seq<Option<string>>, x: string) {
    exists i :: 0 <= i < |ids| && ReadString(ids[i]) == Some(x) && forall j :: 0 <= j < i ==> ReadString(ids[j]).None?
  }

  lemma {:induction false} FirstOriginal(ids: seq<Option<string>>)
    requires Originals([], ids) != []
    ensures FirstNonBlank(ids, Originals([], ids)[0])
    decreases |ids|
  {
    hide ReadString;
    if ids == [] {
      NoOriginals();
    } else if ReadString(ids[0]).Some? {
      OriginalsEffect(Include([], ReadString(ids[0]).value), ids[1..]);
      hide Originals;
    } else {
      FirstOriginal(ids[1..]);
      hide Originals;
      var x := Originals([], ids[1..])[0];
      var i :| 0 <= i < |ids[1..]| && ReadString(ids[1..][i]) == Some(x)
               && forall j :: 0 <= j < i ==> ReadString(ids[1..][j]).None?;
      assert ReadString(ids[i + 1]) == Some(x);
      assert forall j :: 1 <= j < i + 1 ==> ids[j] == ids[1..][j - 1];
    }
  }

  /**
   * A caller that takes the first element of the expansion gets the first id it listed:
   * the expansion starts with the listed ids in the order of their first occurrences.
   */
  lemma {:induction false} ExpansionKeepsInputOrder(ids: seq<Option<string>>)
    ensures var out := Expand(ids); var n := |Originals([], ids)|;
            && n <= |out| && (forall x :: x in out[..n] <==> Listed(ids, x))
            && (forall p, q :: 0 <= p < q < n ==> ListedBefore(ids, out[p], out[q]))
            && (n > 0 ==> FirstNonBlank(ids, out[0]))
  {
    hide Expand, ReadString, Originals, Listed, ListedBefore, FirstNonBlank;
    ExpansionContents(ids);
    var originals := Originals([], ids);
    assert Expand(ids)[..|originals|] == originals;
    forall p, q | 0 <= p < q < |originals|
      ensures ListedBefore(ids, Expand(ids)[p], Expand(ids)[q])
    {
      OriginalsKeepInputOrder(ids, p, q);
    }
    if originals != [] {
      FirstOriginal(ids);
    }
  }

  lemma FormsOfMachine(id: Option<string>)
    ensures var core := MachineCore(id);
            DerivedForms(id) ==
              if core.None? || !IsMachine(core.value) then []
              else [core.value, DAEMON_PREFIX + core.value, STANDALONE_PREFIX + core.value]
  {
    hide MachineCore, HasPrefix, DAEMON_PREFIX, STANDALONE_PREFIX, MACHINE_PREFIX;
    if MachineCore(id).Some? {
      CoreIsTrimmed(id);
    }
  }

  /** A derived spelling has the core of the id it came from, is trimmed, and has the same derived spellings. */
  lemma DerivedFormLaws(id: Option<string>, x: string)
    requires x in DerivedForms(id)
    ensures MachineCore(Some(x)) == MachineCore(id) && DerivedForms(Some(x)) == DerivedForms(id)
    ensures ReadString(Some(x)) == Some(x)
  {
    PrefixLengths();
    hide MachineCore, Text.Trim, HasPrefix, DerivedForms, DAEMON_PREFIX, STANDALONE_PREFIX, MACHINE_PREFIX;
    FormsOfMachine(id);
    var m := MachineCore(id).value;
    BareForm(m);
    CloudForm(m);
    StandaloneForm(m);
    FormsOfMachine(Some(x));
    assert Text.Trimmed(x) && x != "";
  }

  /**
   * An exact-string filter over the expansion agrees with equivalence: any of the three
   * spellings of a machine id is in the expansion of a list exactly if some listed id
   * is equivalent to it.
   */
  lemma ExpansionMatchesEquivalence(ids: seq<Option<string>>, b: Option<string>, x: string)
    requires x in DerivedForms(b)
    ensures x in Expand(ids) <==> exists i :: 0 <= i < |ids| && Equivalent(ids[i], b)
  {
    hide Expand, MachineCore, DerivedForms, ReadString, DAEMON_PREFIX, STANDALONE_PREFIX, MACHINE_PREFIX;
    ExpansionContents(ids);
    DerivedFormLaws(b, x);
    FormsOfMachine(b);
    if Listed(ids, x) {
      var i :| 0 <= i < |ids| && ReadString(ids[i]) == Some(x);
      CoreReadsTrimmed(ids[i]);
      assert Equivalent(ids[i], b);
    }
    if DerivedFrom(ids, x) {
      var i :| 0 <= i < |ids| && x in DerivedForms(ids[i]);
      DerivedFormLaws(ids[i], x);
      FormsOfMachine(ids[i]);
      assert Equivalent(ids[i], b);
    }
    if i :| 0 <= i < |ids| && Equivalent(ids[i], b) {
      FormsOfMachine(ids[i]);
      assert x in DerivedForms(ids[i]);
    }
  }

  /** In particular the canonical form of a machine id is matched exactly by its own machine's lists. */
  lemma CanonicalIsMatchedIffEquivalent(ids: seq<Option<string>>, b: Option<string>)
    requires MachineCore(b).Some? && IsMachine(MachineCore(b).value)
    ensures Canonical(b).value in Expand(ids) <==> exists i :: 0 <= i < |ids| && Equivalent(ids[i], b)
  {
    hide MachineCore, Expand, DerivedForms, DAEMON_PREFIX, STANDALONE_PREFIX, MACHINE_PREFIX;
    CanonicalOfCore(b);
    FormsOfMachine(b);
    ExpansionMatchesEquivalence(ids, b, Canonical(b).value);
  }

  /** Expansion never invents another machine: every member has the core of some listed id. */
  lemma ExpansionStaysWithinItsMachines(ids: seq<Option<string>>, x: string)
    requires x in Expand(ids)
    ensures exists i :: 0 <= i < |ids| && MachineCore(Some(x)) == MachineCore(ids[i]) && ReadString(Some(x)) == Some(x)
  {
    hide Expand, MachineCore, Text.Trim, DerivedForms;
    ExpansionContents(ids);
    if Listed(ids, x) {
      var i :| 0 <= i < |ids| && ReadString(ids[i]) == Some(x);
      CoreReadsTrimmed(ids[i]);
    } else {
      var i :| 0 <= i < |ids| && x in DerivedForms(ids[i]);
      DerivedFormLaws(ids[i], x);
    }
  }

  function Wrap(xs: seq<string>): (ids: seq<Option<string>>)
    ensures |ids| == |xs| && forall i :: 0 <= i < |xs| ==> ids[i] == Some(xs[i])
  {
    seq(|xs|, i requires 0 <= i < |xs| => Some(xs[i]))
  }

  lemma {:induction false} OriginalsOfDistinct(out: seq<string>, xs: seq<string>)
    requires Distinct(out + xs) && forall i :: 0 <= i < |xs| ==> ReadString(Some(xs[i])) == Some(xs[i])
    ensures Originals(out, Wrap(xs)) == out + xs
    decreases |xs|
  {
    hide ReadString;
    if xs == [] {
      assert out + xs == out;
    } else {
      assert Wrap(xs)[1..] == Wrap(xs[1..]);
      assert (out + xs)[|out|] == xs[0];
      assert forall i :: 0 <= i < |out| ==> (out + xs)[i] == out[i];
      assert xs[0] !in out;
      assert out + xs == (out + [xs[0]]) + xs[1..];
      OriginalsOfDistinct(out + [xs[0]], xs[1..]);
    }
  }

  lemma {:induction false} AddingMembersChangesNothing(out: seq<string>, forms: seq<string>)
    requires forall x :: x in forms ==> x in out
    ensures AddAll(out, forms) == out
    decreases |forms|
  {
    if forms == [] {
    } else {
      AddingMembersChangesNothing(out, forms[1..]);
    }
  }

  lemma {:induction false} DerivingMembersChangesNothing(out: seq<string>, ids: seq<Option<string>>)
    requires forall i, x :: 0 <= i < |ids| && x in DerivedForms(ids[i]) ==> x in out
    ensures Derived(out, ids) == out
    decreases |ids|
  {
    hide DerivedForms;
    if ids == [] {
    } else {
      AddingMembersChangesNothing(out, DerivedForms(ids[0]));
      hide AddAll;
      forall i, x | 0 <= i < |ids[1..]| && x in DerivedForms(ids[1..][i])
        ensures x in out
      {
        assert ids[1..][i] == ids[i + 1];
      }
      DerivingMembersChangesNothing(out, ids[1..]);
    }
  }

  lemma ExpansionIsClosed(ids: seq<Option<string>>, x: string, y: string)
    requires x in Expand(ids) && y in DerivedForms(Some(x))
    ensures y in Expand(ids)
  {
    hide Expand;
    ExpansionContents(ids);
    FormsOfMachine(Some(x));
    ExpansionStaysWithinItsMachines(ids, x);
    hide MachineCore, ReadString, DerivedForms;
    var i :| 0 <= i < |ids| && MachineCore(Some(x)) == MachineCore(ids[i]) && ReadString(Some(x)) == Some(x);
    FormsOfMachine(ids[i]);
    assert DerivedFrom(ids, y);
  }

  /** Expanding an expansion gives the same sequence back. */
  lemma ExpansionIsIdempotent(ids: seq<Option<string>>)
    ensures Expand(Wrap(Expand(ids))) == Expand(ids)
  {
    var out := Expand(ids);
    assert Distinct(out) by {
      ExpansionContents(ids);
    }
    assert [] + out == out;
    assert Originals([], Wrap(out)) == out by {
      hide Expand, ReadString;
      forall i | 0 <= i < |out|
        ensures ReadString(Some(out[i])) == Some(out[i])
      {
        ExpansionStaysWithinItsMachines(ids, out[i]);
      }
      OriginalsOfDistinct([], out);
    }
    hide DerivedForms, Originals, Derived, Distinct;
    forall i, x | 0 <= i < |Wrap(out)| && x in DerivedForms(Wrap(out)[i])
      ensures x in out
    {
      ExpansionIsClosed(ids, out[i], x);
    }
    DerivingMembersChangesNothing(out, Wrap(out));
  }

  // ----- The spellings, letter by letter -----

  /** An id of the form `mach_...`, as it would be written down. */
  predicate WrittenMachine(m: string) { Text.Trimmed(m) && |m| >= 5 && m[..5] == "mach_" }

  lemma WrittenIsMachine(m: string)
    requires WrittenMachine(m)
    ensures IsMachine(m)
  {
    assert |"mach_"| == 5;
  }

  /**
   * The three spellings of a machine share its bare id as core and its `daemon_` form as
   * canonical form, and each expands to all three, itself first.
   */
  lemma ThreeSpellings(m: string)
    requires WrittenMachine(m)
    ensures MachineCore(Some(m)) == MachineCore(Some("daemon_" + m)) == MachineCore(Some("standalone_" + m)) == Some(m)
    ensures Canonical(Some(m)) == Canonical(Some("daemon_" + m)) == Canonical(Some("standalone_" + m))
            == Some("daemon_" + m)
    ensures DerivedForms(Some(m)) == DerivedForms(Some("daemon_" + m)) == DerivedForms(Some("standalone_" + m))
            == [m, "daemon_" + m, "standalone_" + m]
  {
    WrittenIsMachine(m);
    Prefixes();
    hide MachineCore, Canonical, DerivedForms, Text.Trim, DAEMON_PREFIX, STANDALONE_PREFIX, MACHINE_PREFIX;
    BareForm(m);
    CloudForm(m);
    StandaloneForm(m);
    CanonicalOfCore(Some(m));
    CanonicalOfCore(Some("daemon_" + m));
    CanonicalOfCore(Some("standalone_" + m));
    FormsOfMachine(Some(m));
    FormsOfMachine(Some("daemon_" + m));
    FormsOfMachine(Some("standalone_" + m));
  }

  lemma Prefixes()
    ensures DAEMON_PREFIX == "daemon_" && STANDALONE_PREFIX == "standalone_" && MACHINE_PREFIX == "mach_"
  {
  }

  /**
   * Neither daemon prefix, in whatever case, and no `mach_` either: the id is its own core
   * and canonical form, and has no other spelling.
   */
  lemma OtherIdsStayThemselves(id: string)
    requires Text.Trimmed(id) && id != ""
    requires !("daemon_" <= Text.Lower(id)) && !("standalone_" <= Text.Lower(id)) && !("mach_" <= Text.Lower(id))
    ensures MachineCore(Some(id)) == Some(id) && Canonical(Some(id)) == Some(id) && DerivedForms(Some(id)) == []
  {
    Prefixes();
    hide Text.Trim, Text.Lower, DAEMON_PREFIX, STANDALONE_PREFIX, MACHINE_PREFIX;
    assert MachineCore(Some(id)) == Some(id);
    hide MachineCore;
    CanonicalOfCore(Some(id));
    CoreIsTrimmed(Some(id));
    FormsOfMachine(Some(id));
  }

  /** The case of a prefix does not matter, nor does space around the id or behind its prefix. */
  lemma PrefixCaseDoesNotMatter(prefix: string, rest: string)
    requires Text.Lower(prefix) == "daemon_" || Text.Lower(prefix) == "standalone_"
    requires Text.Trimmed(prefix + rest)
    ensures MachineCore(Some(prefix + rest)) ==
              if Text.Trim(rest) == "" then None else Some(LowerMachine(Text.Trim(rest)))
  {
    Prefixes();
    PrefixLengths();
    LowerOfConcat(prefix, rest);
    hide DAEMON_PREFIX, STANDALONE_PREFIX, MACHINE_PREFIX, Text.Trim, LowerMachine;
    var id := prefix + rest;
    assert Text.Lower(id)[..|prefix|] == Text.Lower(prefix);
    assert id[|prefix|..] == rest;
    if Text.Lower(prefix) == "daemon_" {
      assert HasPrefix(id, DAEMON_PREFIX);
    } else {
      assert Text.Lower(id)[0] == 's';
      assert HasPrefix(id, STANDALONE_PREFIX) && !HasPrefix(id, DAEMON_PREFIX);
    }
    assert Stripped(id) == Text.Trim(rest);
  }

  /** Lower-casing the machine prefix changes its five letters only. */
  lemma LowerMachineIs(s: string)
    ensures LowerMachine(s) == if |s| >= 5 && Text.Lower(s)[..5] == "mach_" then "mach_" + s[5..] else s
  {
    Prefixes();
    PrefixLengths();
    hide Text.Lower;
  }
}
