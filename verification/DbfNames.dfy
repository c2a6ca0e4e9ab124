/**
 Field names for shapefile exports: at most ten bytes each and all different. Text is a sequence of
 bytes here; which runes survive and how they are upper-cased is left open.
 */
module DbfNames {
  import opened Decimal
  import opened Pigeonhole
  import opened Sorting

  /** Letters, digits and '_' are kept; `upper` gives the bytes of the upper-cased rune. */
  datatype Charset = Charset(keeps: char -> bool, upper: char -> string)

  function Cleaned(cs: Charset, name: string): string {
    if name == [] then []
    else (if cs.keeps(name[0]) then cs.upper(name[0]) else []) + Cleaned(cs, name[1..])
  }

  function Base(cs: Charset, name: string): (base: string)
    ensures 1 <= |base| <= 10
  {
    var clean := Cleaned(cs, name);
    var base := if clean == "" then "FIELD" else clean;
    if |base| > 10 then base[..10] else base
  }

  lemma {:induction false} CleanedAppend(cs: Charset, a: string, b: string)
    ensures Cleaned(cs, a + b) == Cleaned(cs, a) + Cleaned(cs, b)
  {
    if a == [] {
      assert a + b == b;
    } else {
      assert (a + b)[1..] == a[1..] + b;
      CleanedAppend(cs, a[1..], b);
    }
  }

  /** A rune that is not kept makes no difference; any other adds its upper-cased bytes where it stands. */
  lemma CleanedRune(cs: Charset, a: string, c: char, b: string)
    ensures cs.keeps(c) ==> Cleaned(cs, a + [c] + b) == Cleaned(cs, a) + cs.upper(c) + Cleaned(cs, b)
    ensures !cs.keeps(c) ==> Cleaned(cs, a + [c] + b) == Cleaned(cs, a + b)
  {
    CleanedAppend(cs, a + [c], b);
    CleanedAppend(cs, a, [c]);
    CleanedAppend(cs, a, b);
    assert [c][1..] == [];
  }

  /** Every rune of the name is kept and already upper-cased. */
  predicate IsClean(cs: Charset, name: string) {
    forall i | 0 <= i < |name| :: cs.keeps(name[i]) && cs.upper(name[i]) == [name[i]]
  }

  lemma {:induction false} CleanStays(cs: Charset, name: string)
    requires IsClean(cs, name)
    ensures Cleaned(cs, name) == name
  {
    if name != [] {
      CleanStays(cs, name[1..]);
      assert name == [name[0]] + name[1..];
    }
  }

  /** A clean name is used as it is, up to ten bytes; one of which nothing is left is FIELD. */
  lemma BaseOfClean(cs: Charset, name: string)
    ensures IsClean(cs, name) && name != "" ==> Base(cs, name) == if |name| <= 10 then name else name[..10]
    ensures (forall i | 0 <= i < |name| :: !cs.keeps(name[i])) ==> Base(cs, name) == "FIELD"
  {
    if IsClean(cs, name) {
      CleanStays(cs, name);
    }
    if forall i | 0 <= i < |name| :: !cs.keeps(name[i]) {
      NothingKept(cs, name);
    }
  }

  lemma {:induction false} NothingKept(cs: Charset, name: string)
    requires forall i | 0 <= i < |name| :: !cs.keeps(name[i])
    ensures Cleaned(cs, name) == ""
  {
    if name != [] {
      NothingKept(cs, name[1..]);
    }
  }

  function Cut(suffix: nat): nat {
    var cut := 10 - |Itoa(suffix)|;
    if cut < 1 then 1 else cut
  }

  function Candidate(base: string, suffix: nat): string {
    (if |base| > Cut(suffix) then base[..Cut(suffix)] else base) + Itoa(suffix)
  }

  /** Suffixes that leave the same room give different candidates. */
  lemma CandidatesDiffer(base: string, s: nat, t: nat)
    requires Cut(s) == Cut(t) && Candidate(base, s) == Candidate(base, t)
    ensures s == t
  {
    var prefix := if |base| > Cut(s) then base[..Cut(s)] else base;
    assert Itoa(s) == Candidate(base, s)[|prefix|..] && Itoa(t) == Candidate(base, t)[|prefix|..];
    ItoaInjective(s, t);
  }

  /** A candidate is the base followed by the suffix, or so much of it that the whole takes ten bytes. */
  lemma CandidateFits(base: string, s: nat)
    requires |base| <= 10 && s < Pow10(9)
    ensures var tail, front := Itoa(s), |Candidate(base, s)| - |Itoa(s)|;
      && 0 <= front <= |base| && Candidate(base, s) == base[..front] + tail
      && (front == |base| || |Candidate(base, s)| == 10) && |Candidate(base, s)| <= 10
  {
    ItoaLength(s, 9);
  }

  lemma TwoDigits(s: nat)
    requires 10 <= s < 100
    ensures |Itoa(s)| == 2 && Cut(s) == 8
  {
  }

  lemma ShortCandidate(base: string, s: nat)
    requires s < 100
    ensures |Candidate(base, s)| <= 10
  {
    ItoaLength(s, 2);
  }

  lemma LongSuffix(s: nat)
    requires s >= Pow10(8)
    ensures Cut(s) == 1
  {
    ItoaLength(s, 8);
  }

  /** The first n candidates with a two-digit suffix. */
  ghost function TwoDigitCandidates(base: string, n: nat): set<string> {
    if n == 0 then {} else TwoDigitCandidates(base, n - 1) + {Candidate(base, 9 + n)}
  }

  lemma {:induction false} SuffixOf(base: string, n: nat, x: string) returns (s: nat)
    requires x in TwoDigitCandidates(base, n)
    ensures 10 <= s < 10 + n && x == Candidate(base, s)
  {
    if x == Candidate(base, 9 + n) {
      s := 9 + n;
    } else {
      s := SuffixOf(base, n - 1, x);
    }
  }

  lemma {:induction false} TwoDigitCandidatesCount(base: string, n: nat)
    requires n <= 90
    ensures |TwoDigitCandidates(base, n)| == n
  {
    if n > 0 {
      TwoDigitCandidatesCount(base, n - 1);
      if Candidate(base, 9 + n) in TwoDigitCandidates(base, n - 1) {
        var s := SuffixOf(base, n - 1, Candidate(base, 9 + n));
        TwoDigits(s);
        TwoDigits(9 + n);
        CandidatesDiffer(base, s, 9 + n);
      }
    }
  }

  /** Fewer than ninety names cannot use up the ninety candidates with a two-digit suffix. */
  lemma FreeTwoDigitSuffix(base: string, used: set<string>) returns (s: nat)
    requires |used| < 90
    ensures 10 <= s < 100 && Candidate(base, s) !in used
  {
    var n := 90;
    TwoDigitCandidatesCount(base, n);
    var all := TwoDigitCandidates(base, n);
    if all <= used {
      SubsetSize(all, used);
    }
    var x :| x in all && x !in used;
    s := SuffixOf(base, n, x);
  }

  /** The base if it is free, else the candidate with the least suffix from 2 on that is. */
  ghost predicate Picked(base: string, used: set<string>, out: string) {
    && out !in used
    && (base !in used ==> out == base)
    && (base in used ==> exists s: nat ::
          s >= 2 && out == Candidate(base, s) && TakenBelow(base, used, s))
  }

  class FieldNamer {
    var used: set<string>

    constructor ()
      ensures used == {}
    {
      used := {};
    }

    method SafeDBFFieldName(cs: Charset, name: string) returns (out: string)
      modifies this
      ensures Picked(Base(cs, name), old(used), out)
      ensures used == old(used) + {out}
      ensures |old(used)| < 90 ==> |out| <= 10
    {
      var clean := "";
      for i := 0 to |name|
        invariant clean + Cleaned(cs, name[i..]) == Cleaned(cs, name)
      {
        if cs.keeps(name[i]) {
          clean := clean + cs.upper(name[i]);
        }
      }
      assert clean + [] == clean;
      var base := if clean == "" then "FIELD" else clean;
      if |base| > 10 {
        base := base[..10];
      }
      out := PickFree(base);
      used := used + {out};
    }

    /** Tries suffix after suffix; the candidates from 10 to the 8th on are all different, so some one is free. */
    method PickFree(base: string) returns (out: string)
      requires |base| <= 10
      ensures Picked(base, used, out)
      ensures |used| < 90 ==> |out| <= 10
    {
      out := base;
      var suffix: nat := 2;
      ghost var tried: set<string>, long := {}, Pow10(8);
      Pow10Grows(8);
      while out in used
        invariant suffix >= 2 && (suffix == 2 ==> out == base)
        invariant suffix > 2 ==> base in used && out == Candidate(base, suffix - 1)
        invariant TakenBelow(base, used, suffix - 1)
        invariant tried <= used && TriedBelow(base, tried, suffix - 1)
        decreases if suffix - 1 < long then long - suffix + 1 else 0, used - tried
      {
        if suffix - 1 >= long {
          NotTried(base, tried, suffix - 1);
          TriedOneMore(base, tried, suffix - 1);
          tried := tried + {out};
        } else {
          TriedStill(base, tried, suffix - 1);
        }
        TakenOneMore(base, used, suffix - 1);
        out := Candidate(base, suffix);
        suffix := suffix + 1;
      }
      if |used| < 90 && suffix > 2 {
        FirstIsShort(base, used, suffix - 1);
      }
    }
  }

  ghost predicate TakenBelow(base: string, used: set<string>, n: nat) {
    forall t: nat | 2 <= t < n :: Candidate(base, t) in used
  }

  lemma TakenOneMore(base: string, used: set<string>, n: nat)
    requires TakenBelow(base, used, n) && (n >= 2 ==> Candidate(base, n) in used)
    ensures TakenBelow(base, used, n + 1)
  {
  }

  /** The first free candidate is short while fewer than ninety names are in use. */
  lemma FirstIsShort(base: string, used: set<string>, s: nat)
    requires |used| < 90 && TakenBelow(base, used, s)
    ensures |Candidate(base, s)| <= 10
  {
    var free := FreeTwoDigitSuffix(base, used);
    ShortCandidate(base, s);
  }

  /** Of the candidates tried, those with long suffixes below s. */
  ghost predicate TriedBelow(base: string, tried: set<string>, s: nat) {
    forall x | x in tried :: exists t: nat :: Pow10(8) <= t < s && x == Candidate(base, t)
  }

  lemma TriedStill(base: string, tried: set<string>, s: nat)
    requires TriedBelow(base, tried, s)
    ensures TriedBelow(base, tried, s + 1)
  {
    forall x | x in tried
      ensures exists t: nat :: Pow10(8) <= t < s + 1 && x == Candidate(base, t)
    {
      var t: nat :| Pow10(8) <= t < s && x == Candidate(base, t);
    }
  }

  lemma TriedOneMore(base: string, tried: set<string>, s: nat)
    requires TriedBelow(base, tried, s) && s >= Pow10(8)
    ensures TriedBelow(base, tried + {Candidate(base, s)}, s + 1)
  {
    TriedStill(base, tried, s);
  }

  lemma NotTried(base: string, tried: set<string>, s: nat)
    requires s >= Pow10(8) && TriedBelow(base, tried, s)
    ensures Candidate(base, s) !in tried
  {
    if Candidate(base, s) in tried {
      var t: nat :| Pow10(8) <= t < s && Candidate(base, s) == Candidate(base, t);
      LongSuffix(s);
      LongSuffix(t);
      CandidatesDiffer(base, s, t);
    }
  }

  ghost function Elements(s: seq<string>): set<string> { set x | x in s }

  /** The field of a property is its own cleaned name, as far as the fields before it leave that free. */
  ghost predicate PickedAt(cs: Charset, names: seq<string>, fields: seq<string>, i: nat)
    requires |fields| <= |names|
  {
    i < |fields| && Picked(Base(cs, names[i]), Elements(fields[..i]), fields[i])
  }

  lemma PickedNext(cs: Charset, names: seq<string>, fields: seq<string>, field: string)
    requires |fields| < |names| && Picked(Base(cs, names[|fields|]), Elements(fields), field)
    requires forall j | 0 <= j < |fields| :: PickedAt(cs, names, fields, j)
    ensures forall j | 0 <= j <= |fields| :: PickedAt(cs, names, fields + [field], j)
  {
    var all := fields + [field];
    forall j | 0 <= j <= |fields|
      ensures PickedAt(cs, names, all, j)
    {
      assert all[..j] == fields[..j];
      if j < |fields| {
        assert PickedAt(cs, names, fields, j);
      } else {
        assert all[..j] == fields;
      }
    }
  }

  /** One name per property; with at most 64 properties, all different and of at most ten bytes. */
  method ShapefileFields(cs: Charset, names: seq<string>) returns (fields: seq<string>)
    ensures |fields| == |names| && AllDifferent(fields)
    ensures |names| <= 64 ==> forall i | 0 <= i < |fields| :: |fields[i]| <= 10
    ensures forall i | 0 <= i < |fields| :: PickedAt(cs, names, fields, i)
  {
    fields := [];
    var namer := new FieldNamer();
    for i := 0 to |names|
      invariant |fields| == i && AllDifferent(fields) && fresh(namer)
      invariant forall x :: x in namer.used <==> x in fields
      invariant |namer.used| <= i
      invariant |names| <= 64 ==> forall j | 0 <= j < i :: |fields[j]| <= 10
      invariant forall j | 0 <= j < i :: PickedAt(cs, names, fields, j)
    {
      assert namer.used == Elements(fields);
      var field := namer.SafeDBFFieldName(cs, names[i]);
      PickedNext(cs, names, fields, field);
      fields := fields + [field];
    }
  }

  /** The keys in strictly increasing order. */
  ghost predicate SortedKeys(s: seq<string>, keys: set<string>) {
    && (forall i, j | 0 <= i < j < |s| :: TextLeq(s[i], s[j]) && s[i] != s[j])
    && (forall k :: k in keys <==> k in s)
  }

  lemma {:induction false} SortedKeysUnique(a: seq<string>, b: seq<string>, keys: set<string>)
    requires SortedKeys(a, keys) && SortedKeys(b, keys)
    ensures a == b
  {
    NoKeys(a, keys);
    NoKeys(b, keys);
    if keys != {} {
      assert a[0] in keys && a[0] in b;
      assert b[0] in keys && b[0] in a;
      LeastIsFirst(a, b[0]);
      LeastIsFirst(b, a[0]);
      TextTotal(a[0], b[0]);
      DropLeast(a, keys);
      DropLeast(b, keys);
      SortedKeysUnique(a[1..], b[1..], keys - {a[0]});
      assert a == [a[0]] + a[1..] && b == [b[0]] + b[1..];
    }
  }

  lemma NoKeys(a: seq<string>, keys: set<string>)
    requires SortedKeys(a, keys)
    ensures a == [] <==> keys == {}
  {
    if a != [] {
      assert a[0] in keys;
    }
  }

  lemma LeastIsFirst(a: seq<string>, k: string)
    requires k in a && forall i, j | 0 <= i < j < |a| :: TextLeq(a[i], a[j]) && a[i] != a[j]
    ensures TextLeq(a[0], k)
  {
    TextTotal(k, k);
  }

  lemma DropLeast(a: seq<string>, keys: set<string>)
    requires a != [] && SortedKeys(a, keys)
    ensures SortedKeys(a[1..], keys - {a[0]})
  {
  }

  lemma TextPreorder()
    ensures TotalPreorder(TextLeq)
  {
    forall x, y
      ensures TextLeq(x, y) || TextLeq(y, x)
    {
      TextTotal(x, y);
    }
    forall x, y, z | TextLeq(x, y) && TextLeq(y, z)
      ensures TextLeq(x, z)
    {
      TextTransitive(x, y, z);
    }
  }

  ghost function AllKeys(features: seq<seq<string>>): set<string> {
    set i, j | 0 <= i < |features| && 0 <= j < |features[i]| :: features[i][j]
  }

  /**
   Each feature lists its property names in whatever order its map is traversed; the result does not
   depend on that order.
   */
  method ShapefileFieldNames(features: seq<seq<string>>) returns (names: seq<string>)
    ensures |names| <= 64
    ensures exists sorted :: SortedKeys(sorted, AllKeys(features))
    ensures forall sorted | SortedKeys(sorted, AllKeys(features)) ::
      names == if |sorted| > 64 then sorted[..64] else sorted
  {
    names := [];
    for i := 0 to |features|
      invariant AllDifferent(names) && forall k :: k in names <==> k in AllKeys(features[..i])
    {
      for j := 0 to |features[i]|
        invariant AllDifferent(names)
        invariant forall k :: k in names <==> k in AllKeys(features[..i]) || k in features[i][..j]
      {
        if features[i][j] !in names {
          names := names + [features[i][j]];
        }
      }
      MoreKeys(features, i);
      assert features[i][..|features[i]|] == features[i];
    }
    assert features[..|features|] == features;
    SortedNames(names, AllKeys(features));
    names := StableSort(names, TextLeq);
    forall sorted | SortedKeys(sorted, AllKeys(features))
      ensures sorted == names
    {
      SortedKeysUnique(sorted, names, AllKeys(features));
    }
    if |names| > 64 {
      names := names[..64];
    }
  }

  lemma MoreKeys(features: seq<seq<string>>, i: nat)
    requires i < |features|
    ensures forall k :: k in AllKeys(features[..i + 1]) <==> k in AllKeys(features[..i]) || k in features[i]
  {
    forall k
      ensures k in AllKeys(features[..i + 1]) <==> k in AllKeys(features[..i]) || k in features[i]
    {
      if k in AllKeys(features[..i]) {
        var a, b :| 0 <= a < i && 0 <= b < |features[..i][a]| && features[..i][a][b] == k;
        assert features[..i + 1][a][b] == k;
      }
      if k in features[i] {
        var b :| 0 <= b < |features[i]| && features[i][b] == k;
        assert features[..i + 1][i][b] == k;
      }
      if k in AllKeys(features[..i + 1]) {
        var a, b :| 0 <= a < i + 1 && 0 <= b < |features[..i + 1][a]| && features[..i + 1][a][b] == k;
        assert a < i ==> features[..i][a][b] == k;
      }
    }
  }

  lemma SortedNames(names: seq<string>, keys: set<string>)
    requires AllDifferent(names) && forall k :: k in names <==> k in keys
    ensures SortedKeys(StableSort(names, TextLeq), keys)
  {
    TextPreorder();
    SortSorted(names, TextLeq);
    SortMembers(names, TextLeq);
    SortDifferent(names, TextLeq);
  }
}
