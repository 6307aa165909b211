/** The camera's parameter map and its string form (camera/compat/CameraParameters.cpp). Strings
    are C strings; the map is a vector of entries sorted by key. */
module CameraParametersModel {
  import opened Wrappers

  datatype Entry = Entry(key: string, value: string)

  /** The order of the map's keys: character by character, a proper prefix first. */
  predicate Less(a: string, b: string) {
    b != "" && (a == "" || a[0] < b[0] || (a[0] == b[0] && Less(a[1..], b[1..])))
  }

  lemma {:induction false} LessIsTotal(a: string, b: string)
    ensures Less(a, b) || Less(b, a) || a == b
    ensures !(Less(a, b) && Less(b, a)) && !Less(a, a)
    decreases |a| + |b|
  {
    if a != "" && b != "" && a[0] == b[0] {
      LessIsTotal(a[1..], b[1..]);
      assert a == [a[0]] + a[1..] && b == [b[0]] + b[1..];
    }
    if a != "" {
      LessIsIrreflexive(a);
    }
  }

  lemma {:induction false} LessIsIrreflexive(a: string)
    ensures !Less(a, a)
  {
    if a != "" {
      LessIsIrreflexive(a[1..]);
    }
  }

  lemma {:induction false} LessIsTransitive(a: string, b: string, c: string)
    requires Less(a, b) && Less(b, c)
    ensures Less(a, c)
  {
    if a != "" && a[0] == b[0] && b[0] == c[0] {
      LessIsTransitive(a[1..], b[1..], c[1..]);
    }
  }

  /** The keys agree up to position `k`, where `a` ends or has the smaller character. */
  ghost predicate DiffersAt(a: string, b: string, k: int) {
    && 0 <= k <= |a| && k < |b| && (forall i :: 0 <= i < k ==> a[i] == b[i])
    && (k < |a| ==> a[k] < b[k])
  }

  /** It is the order of dictionaries. */
  lemma {:induction false} LessIffDiffers(a: string, b: string)
    ensures Less(a, b) <==> exists k :: DiffersAt(a, b, k)
  {
    if a == "" || b == "" || a[0] != b[0] {
      assert Less(a, b) ==> DiffersAt(a, b, 0);
    } else {
      LessIffDiffers(a[1..], b[1..]);
      if k :| DiffersAt(a[1..], b[1..], k) {
        assert forall i :: 1 <= i < |a| ==> a[i] == a[1..][i - 1];
        assert forall i :: 1 <= i < |b| ==> b[i] == b[1..][i - 1];
        assert DiffersAt(a, b, k + 1);
      }
      if k :| DiffersAt(a, b, k) {
        assert k > 0;
        assert DiffersAt(a[1..], b[1..], k - 1);
      }
    }
  }

  // ---- The sorted map ----

  /** Adds an entry at its place, replacing one with the same key. */
  function Upsert(m: seq<Entry>, e: Entry): (r: seq<Entry>) {
    if m == [] then [e]
    else if m[0].key == e.key then [e] + m[1..]
    else if Less(e.key, m[0].key) then [e] + m
    else [m[0]] + Upsert(m[1..], e)
  }

  function UpsertAll(m: seq<Entry>, es: seq<Entry>): (r: seq<Entry>)
    decreases es
  {
    if es == [] then m else UpsertAll(Upsert(m, es[0]), es[1..])
  }

  function Lookup(m: seq<Entry>, key: string): Option<string> {
    if m == [] then None else if m[0].key == key then Some(m[0].value) else Lookup(m[1..], key)
  }

  function Without(m: seq<Entry>, key: string): (r: seq<Entry>) {
    if m == [] then [] else if m[0].key == key then m[1..] else [m[0]] + Without(m[1..], key)
  }

  predicate Clean(e: Entry) {
    '=' !in e.key && ';' !in e.value
  }

  ghost predicate AllClean(m: seq<Entry>) {
    forall i :: 0 <= i < |m| ==> Clean(m[i])
  }

  ghost predicate Sorted(m: seq<Entry>) {
    forall i, j :: 0 <= i < j < |m| ==> Less(m[i].key, m[j].key)
  }

  /** What holds of the map in every reachable state. */
  ghost predicate WellFormed(m: seq<Entry>) {
    Sorted(m) && AllClean(m)
  }

  lemma {:induction false} UpsertKeepsSorted(m: seq<Entry>, e: Entry)
    requires Sorted(m)
    ensures Sorted(Upsert(m, e))
    ensures forall k :: 0 <= k < |Upsert(m, e)| ==> Upsert(m, e)[k] == e || Upsert(m, e)[k] in m
  {
    if m != [] && m[0].key != e.key {
      if Less(e.key, m[0].key) {
        forall j | 0 <= j < |m| ensures Less(e.key, m[j].key) {
          if j > 0 {
            LessIsTransitive(e.key, m[0].key, m[j].key);
          }
        }
      } else {
        LessIsTotal(e.key, m[0].key);
        UpsertKeepsSorted(m[1..], e);
        var rest := Upsert(m[1..], e);
        forall k | 0 <= k < |rest| ensures Less(m[0].key, rest[k].key) {
          assert rest[k] == e || rest[k] in m[1..];
        }
      }
    }
  }

  /** A stored value is found again and every other key is as before. */
  lemma {:induction false} LookupAfterUpsert(m: seq<Entry>, e: Entry, key: string)
    ensures Lookup(Upsert(m, e), key) == if key == e.key then Some(e.value) else Lookup(m, key)
  {
    if m != [] && m[0].key != e.key && !Less(e.key, m[0].key) {
      LookupAfterUpsert(m[1..], e, key);
    }
  }

  lemma {:induction false} LookupBelow(m: seq<Entry>, key: string)
    requires forall i :: 0 <= i < |m| ==> Less(key, m[i].key)
    ensures Lookup(m, key) == None
  {
    if m != [] {
      LessIsIrreflexive(key);
      LookupBelow(m[1..], key);
    }
  }

  lemma {:induction false} WithoutKeepsSorted(m: seq<Entry>, key: string, other: string)
    requires Sorted(m)
    ensures Sorted(Without(m, key))
    ensures forall k :: 0 <= k < |Without(m, key)| ==> Without(m, key)[k] in m
    ensures Lookup(Without(m, key), other) == if other == key then None else Lookup(m, other)
  {
    if m != [] {
      if m[0].key == key {
        LookupBelow(m[1..], key);
      } else {
        WithoutKeepsSorted(m[1..], key, other);
      }
    }
  }

  lemma {:induction false} UpsertAllKeeps(m: seq<Entry>, es: seq<Entry>)
    requires WellFormed(m) && AllClean(es)
    ensures WellFormed(UpsertAll(m, es))
    decreases es
  {
    if es != [] {
      UpsertKeepsSorted(m, es[0]);
      UpsertAllKeeps(Upsert(m, es[0]), es[1..]);
    }
  }

  /** The last entry given for a key wins. */
  lemma {:induction false} LastEntryWins(m: seq<Entry>, es: seq<Entry>, key: string)
    ensures Lookup(UpsertAll(m, es), key) ==
            if exists i :: 0 <= i < |es| && es[i].key == key
            then Some(es[LastWithKey(es, key)].value) else Lookup(m, key)
    decreases es
  {
    if es != [] {
      LookupAfterUpsert(m, es[0], key);
      LastEntryWins(Upsert(m, es[0]), es[1..], key);
      assert forall i :: 0 <= i < |es| - 1 ==> es[1..][i] == es[i + 1];
    }
  }

  ghost function LastWithKey(es: seq<Entry>, key: string): (i: int)
    requires exists i :: 0 <= i < |es| && es[i].key == key
    ensures 0 <= i < |es| && es[i].key == key
    ensures forall j :: i < j < |es| ==> es[j].key != key
  {
    if es[|es| - 1].key == key then |es| - 1 else LastWithKey(es[..|es| - 1], key)
  }

  lemma UpsertBeyond(m: seq<Entry>, e: Entry)
    requires forall i :: 0 <= i < |m| ==> Less(m[i].key, e.key)
    ensures Upsert(m, e) == m + [e]
  {
    if m != [] {
      LessIsTotal(m[0].key, e.key);
      UpsertBeyond(m[1..], e);
      assert m + [e] == [m[0]] + (m[1..] + [e]);
    }
  }

  /** Adding the entries of a sorted map one by one builds that map. */
  lemma {:induction false} UpsertAllSorted(m: seq<Entry>, es: seq<Entry>)
    requires Sorted(m + es)
    ensures UpsertAll(m, es) == m + es
    decreases es
  {
    if es == [] {
      assert m + es == m;
    } else {
      forall i | 0 <= i < |m| ensures Less(m[i].key, es[0].key) {
        assert (m + es)[i] == m[i] && (m + es)[|m|] == es[0];
      }
      UpsertBeyond(m, es[0]);
      assert (m + [es[0]]) + es[1..] == m + es;
      UpsertAllSorted(m + [es[0]], es[1..]);
    }
  }

  // ---- The string form ----

  /** The position of the first `c`, or the length. */
  function IndexOf(s: string, c: char): (k: nat)
    ensures k <= |s| && (k < |s| ==> s[k] == c)
    ensures forall i :: 0 <= i < k ==> s[i] != c
  {
    if s == "" || s[0] == c then 0
    else
      var k := 1 + IndexOf(s[1..], c);
      assert forall i :: 1 <= i < k ==> s[i] == s[1..][i - 1];
      k
  }

  lemma IndexOfFirst(a: string, c: char, b: string)
    requires c !in a
    ensures IndexOf(a + [c] + b, c) == |a| && IndexOf(a, c) == |a|
  {
    var s := a + [c] + b;
    assert s[|a|] == c;
    assert forall i :: 0 <= i < |a| ==> s[i] == a[i];
  }

  function Flat(m: seq<Entry>): (s: string) {
    if m == [] then ""
    else if |m| == 1 then m[0].key + ['='] + m[0].value
    else m[0].key + ['='] + (m[0].value + [';'] + Flat(m[1..]))
  }

  /** What is printed: entries as "key=value", with ";" between them and nowhere else. */
  lemma {:induction false} FlatIsJoined(m: seq<Entry>, n: seq<Entry>, e: Entry)
    ensures Flat([]) == "" && Flat([e]) == e.key + "=" + e.value
    ensures m != [] && n != [] ==> Flat(m + n) == Flat(m) + ";" + Flat(n)
  {
    if m != [] && n != [] {
      assert (m + n)[1..] == m[1..] + n;
      if |m| > 1 {
        FlatIsJoined(m[1..], n, e);
      } else {
        assert m[1..] + n == n;
      }
    }
  }

  /** The first entry of a string that has one: the key ends at '=', the value at ';' or the end. */
  function FirstEntry(s: string): (e: Entry)
    requires IndexOf(s, '=') < |s|
    ensures Clean(e)
  {
    var k := IndexOf(s, '=');
    var rest := s[k + 1..];
    var j := IndexOf(rest, ';');
    assert rest[..j] == rest || j < |rest|;
    Entry(s[..k], rest[..j])
  }

  /** What the parser has still in front of it after the first entry. */
  function Remainder(s: string): (r: string)
    requires IndexOf(s, '=') < |s|
    ensures |r| < |s|
  {
    var rest := s[IndexOf(s, '=') + 1..];
    var j := IndexOf(rest, ';');
    if j == |rest| then "" else rest[j + 1..]
  }

  /** The entries of an arbitrary string, in order. */
  function Parse(s: string): (es: seq<Entry>)
    ensures AllClean(es)
    decreases |s|
  {
    if IndexOf(s, '=') == |s| then [] else [FirstEntry(s)] + Parse(Remainder(s))
  }

  /** One round of the parser, in front of which only the key stands. */
  lemma KeyFirst(key: string, rest: string)
    requires '=' !in key
    ensures var s, j := key + ['='] + rest, IndexOf(rest, ';');
            && IndexOf(s, '=') < |s| && FirstEntry(s) == Entry(key, rest[..j])
            && Remainder(s) == if j == |rest| then "" else rest[j + 1..]
  {
    var s := key + ['='] + rest;
    IndexOfFirst(key, '=', rest);
    assert s[..|key|] == key && s[|key| + 1..] == rest;
  }

  /** `unflatten` as a function: the map it leaves behind. */
  function MapOf(s: string): (m: seq<Entry>) {
    UpsertAll([], Parse(s))
  }

  lemma MapOfIsWellFormed(s: string)
    ensures WellFormed(MapOf(s))
  {
    UpsertAllKeeps([], Parse(s));
  }

  lemma ParseLast(e: Entry)
    requires Clean(e)
    ensures Parse(e.key + ['='] + e.value) == [e]
  {
    var s := e.key + ['='] + e.value;
    IndexOfFirst(e.value, ';', "");
    KeyFirst(e.key, e.value);
    assert FirstEntry(s) == e && Remainder(s) == "" by {
      assert e.value[..|e.value|] == e.value;
    }
    assert Parse("") == [];
  }

  lemma ParseFirst(e: Entry, more: string)
    requires Clean(e)
    ensures Parse(e.key + ['='] + (e.value + [';'] + more)) == [e] + Parse(more)
  {
    var rest := e.value + [';'] + more;
    var s := e.key + ['='] + rest;
    IndexOfFirst(e.value, ';', more);
    KeyFirst(e.key, rest);
    assert FirstEntry(s) == e && Remainder(s) == more by {
      assert rest[..|e.value|] == e.value && rest[|e.value| + 1..] == more;
    }
  }

  lemma ParseFlatOne(m: seq<Entry>)
    requires m != [] && Clean(m[0])
    ensures Parse(Flat(m)) == [m[0]] + if |m| == 1 then [] else Parse(Flat(m[1..]))
  {
    if |m| == 1 {
      ParseLast(m[0]);
    } else {
      ParseFirst(m[0], Flat(m[1..]));
    }
  }

  /** The parser finds exactly the entries that were printed, whatever else their keys and values
      contain. */
  lemma {:induction false} ParseFlat(m: seq<Entry>)
    requires AllClean(m)
    ensures Parse(Flat(m)) == m
  {
    if m != [] {
      var rest := m[1..];
      ParseFlat(rest);
      ParseFlatOne(m);
      assert m == [m[0]] + rest;
    }
  }

  /** Every reachable map survives being written and read back. */
  lemma RoundTrip(m: seq<Entry>)
    requires WellFormed(m)
    ensures MapOf(Flat(m)) == m
  {
    ParseFlat(m);
    assert [] + m == m;
    UpsertAllSorted([], m);
  }

  /** Reading any string and writing it back gives a normal form: it stands for the same map, and
      doing it again changes nothing. */
  lemma NormalForm(s: string)
    ensures MapOf(Flat(MapOf(s))) == MapOf(s)
    ensures Flat(MapOf(Flat(MapOf(s)))) == Flat(MapOf(s))
  {
    MapOfIsWellFormed(s);
    RoundTrip(MapOf(s));
  }

  // ---- What `set` would refuse ----

  predicate Settable(e: Entry) {
    '=' !in e.key && ';' !in e.key && '=' !in e.value && ';' !in e.value
  }

  /** A part of the string that ends with ';' and has no '=', with an '=' further on. */
  ghost predicate NoEquals(s: string, a: int, b: int) {
    && 0 <= a <= b < |s| && (a == 0 || s[a - 1] == ';') && s[b] == ';'
    && (forall i :: a <= i < b ==> s[i] != '=') && exists i :: b < i < |s| && s[i] == '='
  }

  /** Two '=' in one part of the string. */
  ghost predicate TwoEquals(s: string, a: int, b: int) {
    0 <= a < b < |s| && s[a] == '=' && s[b] == '=' && forall i :: a < i < b ==> s[i] != ';'
  }

  ghost predicate HasNoEquals(s: string) {
    exists a, b :: NoEquals(s, a, b)
  }

  ghost predicate HasTwoEquals(s: string) {
    exists a, b :: TwoEquals(s, a, b)
  }

  /** After a ';' the string can be looked at on its own. */
  lemma NoEqualsShifted(s: string, p: nat, a: int, b: int)
    requires p < |s| && s[p] == ';' && p < a
    ensures NoEquals(s, a, b) <==> NoEquals(s[p + 1..], a - p - 1, b - p - 1)
  {
    var rest, d := s[p + 1..], p + 1;
    assert forall i :: d <= i < |s| ==> s[i] == rest[i - d];
    assert forall i :: 0 <= i < |rest| ==> rest[i] == s[i + d];
  }

  lemma TwoEqualsShifted(s: string, p: nat, a: int, b: int)
    requires p < |s| && p < a
    ensures TwoEquals(s, a, b) <==> TwoEquals(s[p + 1..], a - p - 1, b - p - 1)
  {
    var rest, d := s[p + 1..], p + 1;
    assert forall i :: d <= i < |s| ==> s[i] == rest[i - d];
    assert forall i :: 0 <= i < |rest| ==> rest[i] == s[i + d];
  }

  /** The first '=' is at `k`, and the value behind it ends at `p`. */
  ghost predicate Splits(s: string, k: nat, p: nat) {
    && k < p <= |s| && s[k] == '=' && (p < |s| ==> s[p] == ';')
    && (forall i :: 0 <= i < k ==> s[i] != '=') && forall i :: k < i < p ==> s[i] != ';'
  }

  lemma FirstSplits(s: string) returns (k: nat, p: nat)
    requires IndexOf(s, '=') < |s|
    ensures Splits(s, k, p) && FirstEntry(s) == Entry(s[..k], s[k + 1..p])
    ensures Remainder(s) == if p < |s| then s[p + 1..] else ""
  {
    k := IndexOf(s, '=');
    var rest := s[k + 1..];
    p := k + 1 + IndexOf(rest, ';');
    assert forall i :: k < i < |s| ==> s[i] == rest[i - k - 1];
    assert rest[..p - k - 1] == s[k + 1..p];
  }

  lemma NoEqualsFirst(s: string, k: nat, p: nat, b: nat)
    requires Splits(s, k, p) && b < k && s[b] == ';'
    ensures NoEquals(s, 0, b)
  {
  }

  lemma NoEqualsLater(s: string, k: nat, p: nat, a: int, b: int)
    requires Splits(s, k, p) && NoEquals(s, a, b) && forall i :: 0 <= i < k ==> s[i] != ';'
    ensures p < a
  {
    assert k < a;
  }

  lemma NoEqualsStep(s: string, k: nat, p: nat)
    requires Splits(s, k, p)
    ensures HasNoEquals(s) <==> ';' in s[..k] || (p < |s| && HasNoEquals(s[p + 1..]))
  {
    if i :| 0 <= i < k && s[i] == ';' {
      NoEqualsFirst(s, k, p, i);
      assert s[..k][i] == ';';
    } else if a, b :| NoEquals(s, a, b) {
      NoEqualsLater(s, k, p, a, b);
      NoEqualsShifted(s, p, a, b);
    }
    if p < |s| {
      var rest := s[p + 1..];
      if a, b :| NoEquals(rest, a, b) {
        NoEqualsShifted(s, p, a + p + 1, b + p + 1);
        assert NoEquals(s, a + p + 1, b + p + 1);
      }
    }
  }

  lemma TwoEqualsLater(s: string, k: nat, p: nat, a: int, b: int)
    requires Splits(s, k, p) && TwoEquals(s, a, b) && forall i :: k < i < p ==> s[i] != '='
    ensures p < a
  {
    assert k <= a;
  }

  lemma TwoEqualsStep(s: string, k: nat, p: nat)
    requires Splits(s, k, p)
    ensures HasTwoEquals(s) <==> '=' in s[k + 1..p] || (p < |s| && HasTwoEquals(s[p + 1..]))
  {
    if i :| k < i < p && s[i] == '=' {
      assert TwoEquals(s, k, i);
      assert s[k + 1..p][i - k - 1] == '=';
    } else if a, b :| TwoEquals(s, a, b) {
      TwoEqualsLater(s, k, p, a, b);
      TwoEqualsShifted(s, p, a, b);
    }
    if p < |s| {
      var rest := s[p + 1..];
      if a, b :| TwoEquals(rest, a, b) {
        TwoEqualsShifted(s, p, a + p + 1, b + p + 1);
        assert TwoEquals(s, a + p + 1, b + p + 1);
      }
    }
  }

  lemma NothingWithoutEquals(s: string)
    requires '=' !in s
    ensures !HasNoEquals(s) && !HasTwoEquals(s)
  {
  }

  ghost predicate SomeKey(es: seq<Entry>) {
    exists i :: 0 <= i < |es| && ';' in es[i].key
  }

  ghost predicate SomeValue(es: seq<Entry>) {
    exists i :: 0 <= i < |es| && '=' in es[i].value
  }

  lemma SomeFirst(e: Entry, es: seq<Entry>)
    ensures SomeKey([e] + es) <==> ';' in e.key || SomeKey(es)
    ensures SomeValue([e] + es) <==> '=' in e.value || SomeValue(es)
  {
    var all := [e] + es;
    assert all[0] == e && forall i :: 0 <= i < |es| ==> all[i + 1] == es[i];
  }

  lemma {:induction false} ParsedRefusals(s: string)
    ensures SomeKey(Parse(s)) <==> HasNoEquals(s)
    ensures SomeValue(Parse(s)) <==> HasTwoEquals(s)
    decreases |s|
  {
    if IndexOf(s, '=') == |s| {
      NothingWithoutEquals(s);
    } else {
      ParsedRefusals(Remainder(s));
      SomeFirst(FirstEntry(s), Parse(Remainder(s)));
      var k, p := FirstSplits(s);
      NoEqualsStep(s, k, p);
      TwoEqualsStep(s, k, p);
      NothingWithoutEquals("");
    }
  }

  /** `set` would accept every entry of a string exactly when no part of it has two '=', and none but
      those at the end has none. */
  lemma SettableIff(s: string)
    ensures (forall i :: 0 <= i < |Parse(s)| ==> Settable(Parse(s)[i])) <==> !HasNoEquals(s) && !HasTwoEquals(s)
  {
    ParsedRefusals(s);
    assert AllClean(Parse(s));
  }

  lemma {:induction false} LookupIffPresent(m: seq<Entry>, key: string)
    ensures Lookup(m, key).Some? <==> exists i :: 0 <= i < |m| && m[i].key == key
  {
    if m != [] {
      LookupIffPresent(m[1..], key);
      assert forall i :: 0 <= i < |m| - 1 ==> m[1..][i] == m[i + 1];
    }
  }

  /** The keys of the map are those of the entries added. */
  lemma UpsertedKeys(es: seq<Entry>, key: string)
    ensures Lookup(UpsertAll([], es), key).Some? <==> exists i :: 0 <= i < |es| && es[i].key == key
  {
    LastEntryWins([], es, key);
    assert Lookup([], key) == None;
  }

  /** A string brings in a key that `set` refuses exactly when a part of it has no '=' and an '=' comes
      after that part. */
  lemma SemicolonInKeyIff(s: string)
    ensures (exists i :: 0 <= i < |MapOf(s)| && ';' in MapOf(s)[i].key) <==> HasNoEquals(s)
  {
    ParsedRefusals(s);
    if i :| 0 <= i < |MapOf(s)| && ';' in MapOf(s)[i].key {
      LookupIffPresent(MapOf(s), MapOf(s)[i].key);
      UpsertedKeys(Parse(s), MapOf(s)[i].key);
    }
    if i :| 0 <= i < |Parse(s)| && ';' in Parse(s)[i].key {
      UpsertedKeys(Parse(s), Parse(s)[i].key);
      LookupIffPresent(MapOf(s), Parse(s)[i].key);
    }
  }

  /** Such a string. The round trip holds for it as well. */
  lemma SemicolonInKey()
    ensures MapOf("a;b=c") == [Entry("a;b", "c")]
    ensures Flat([Entry("a;b", "c")]) == "a;b=c"
  {
    assert "a;b" + ['='] + "c" == "a;b=c";
    ParseLast(Entry("a;b", "c"));
    UpsertAllSorted([], [Entry("a;b", "c")]);
  }

  /** The string determines the map: no two reachable maps are written the same way. */
  lemma FlatIsInjective(m: seq<Entry>, n: seq<Entry>)
    requires WellFormed(m) && WellFormed(n) && Flat(m) == Flat(n)
    ensures m == n
  {
    RoundTrip(m);
    RoundTrip(n);
  }

  /** A string split into its first entry and what comes after it. */
  ghost predicate SplitOff(s: string, e: Entry, last: bool, rest: string) {
    Clean(e) && s == e.key + "=" + e.value + (if last then "" else ";" + rest) && (last ==> rest == "")
  }

  /** One round of the parser, adding its entry to the map. */
  lemma UnflattenStep(m: seq<Entry>, s: string, e: Entry, last: bool, rest: string)
    requires SplitOff(s, e, last, rest)
    ensures UpsertAll(m, Parse(s)) == UpsertAll(Upsert(m, e), Parse(rest)) && |rest| < |s|
  {
    if last {
      assert s == e.key + ['='] + e.value;
      ParseLast(e);
      assert [e] + Parse(rest) == [e];
    } else {
      assert s == e.key + ['='] + (e.value + [';'] + rest);
      ParseFirst(e, rest);
    }
    UpsertAllFirst(m, e, Parse(rest));
  }

  lemma NoMoreEntries(m: seq<Entry>, s: string)
    requires IndexOf(s, '=') == |s|
    ensures UpsertAll(m, Parse(s)) == m
  {
  }

  lemma UpsertAllFirst(m: seq<Entry>, e: Entry, es: seq<Entry>)
    ensures UpsertAll(m, [e] + es) == UpsertAll(Upsert(m, e), es)
  {
    assert ([e] + es)[1..] == es;
  }

  lemma FlattenStep(before: string, e: Entry, rest: seq<Entry>)
    ensures before + Flat([e] + rest) ==
            before + e.key + "=" + e.value + (if rest == [] then "" else ";") + Flat(rest)
  {
    assert ([e] + rest)[1..] == rest;
    if rest != [] {
      assert Flat([e] + rest) == e.key + ['='] + (e.value + [';'] + Flat(rest));
    }
  }

  class CameraParameters {
    var entries: seq<Entry>

    ghost predicate Valid()
      reads this
    {
      WellFormed(entries)
    }

    constructor ()
      ensures Valid() && entries == []
    {
      entries := [];
    }

    method Flatten() returns (flattened: string)
      ensures flattened == Flat(entries)
      ensures Valid() ==> MapOf(flattened) == entries
    {
      flattened := "";
      var size := |entries|;
      for i := 0 to size
        invariant flattened + Flat(entries[i..]) == Flat(entries)
      {
        assert entries[i..][0] == entries[i] && entries[i..][1..] == entries[i + 1..];
        ghost var before := flattened;
        flattened := flattened + entries[i].key;
        flattened := flattened + "=";
        flattened := flattened + entries[i].value;
        if i != size - 1 {
          flattened := flattened + ";";
        }
        FlattenStep(before, entries[i], entries[i + 1..]);
        assert [entries[i]] + entries[i + 1..] == entries[i..];
      }
      if WellFormed(entries) {
        RoundTrip(entries);
      }
    }

    /** Splits off the next entry of a string that has one. */
    static method NextEntry(params: string) returns (entry: Entry, last: bool, rest: string)
      requires '=' in params
      ensures SplitOff(params, entry, last, rest)
    {
      var b := IndexOf(params, '=');
      var k := params[..b];
      var a := params[b + 1..];
      b := IndexOf(a, ';');
      entry := Entry(k, a[..b]);
      last := b == |a|;
      rest := if last then "" else a[b + 1..];
    }

    /** Replaces the whole map by what an arbitrary string says. */
    method Unflatten(params: string)
      modifies this
      ensures Valid() && entries == MapOf(params)
    {
      entries := [];
      var a := params; // what the pointer still has in front of it
      while IndexOf(a, '=') < |a|
        invariant UpsertAll(entries, Parse(a)) == MapOf(params)
        decreases |a|
      {
        var entry, last, rest := NextEntry(a);
        UnflattenStep(entries, a, entry, last, rest);
        entries := Upsert(entries, entry);
        a := rest;
        if last {
          break;
        }
      }
      NoMoreEntries(entries, a);
      MapOfIsWellFormed(params);
    }

    /** Stores a value unless key or value contains a separator; then the map stays as it is. */
    method Set(key: string, value: string)
      requires Valid()
      modifies this
      ensures Valid()
      ensures var legal := '=' !in key && ';' !in key && '=' !in value && ';' !in value;
              if legal then forall k :: Lookup(entries, k) == if k == key then Some(value) else Lookup(old(entries), k)
              else entries == old(entries)
    {
      if '=' in key || ';' in key {
        return;
      }
      if '=' in value || ';' in value {
        return;
      }
      UpsertKeepsSorted(entries, Entry(key, value));
      forall k {
        LookupAfterUpsert(entries, Entry(key, value), k);
      }
      entries := Upsert(entries, Entry(key, value));
    }

    /** `None` is the null pointer: an absent key and an empty value look the same. */
    method Get(key: string) returns (value: Option<string>)
      ensures value == match Lookup(entries, key) case None => None case Some(v) => if v == "" then None else Some(v)
    {
      value := Lookup(entries, key);
      if value == Some("") {
        value := None;
      }
    }

    method Remove(key: string)
      requires Valid()
      modifies this
      ensures Valid()
      ensures forall k :: Lookup(entries, k) == if k == key then None else Lookup(old(entries), k)
    {
      forall k {
        WithoutKeepsSorted(entries, key, k);
      }
      WithoutKeepsSorted(entries, key, key);
      entries := Without(entries, key);
    }
  }
}
