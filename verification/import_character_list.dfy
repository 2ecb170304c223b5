/**
 * The data logic behind the character-import screen
 * (src/components/import-character-list.tsx): grouping an account's
 * characters by realm, the importable characters of a realm, the pending
 * selection and its toggles, and the account's display label. React state is
 * an explicit value: a handler takes the selection it sees and returns the
 * new one.
 */
module ImportCharacterList {
  import opened Wrappers
  import opened WowCharacters
  import opened Schema
  import Collation

  /** A realm name and the characters on it, in input order (`CharacterRealm`). */
  datatype CharacterRealm = CharacterRealm(name: string, characters: seq<Character>)

  // ---------------------------------------------------------------------------
  // Grouping by realm (getCharactersByRealm)
  // ---------------------------------------------------------------------------

  /** The characters of `chars` on the realm called `name`, in input order. */
  function OnRealm(chars: seq<Character>, name: string): (r: seq<Character>)
    ensures forall c :: c in r <==> c in chars && c.realm.name == name
  {
    if chars == [] then []
    else
      var last := chars[|chars| - 1];
      assert chars == chars[..|chars| - 1] + [last];
      OnRealm(chars[..|chars| - 1], name) + (if last.realm.name == name then [last] else [])
  }

  /** The realm names that occur in `chars`. */
  function RealmNamesOf(chars: seq<Character>): set<string>
  {
    set c | c in chars :: c.realm.name
  }

  /** The names of a list of groups. */
  function Names(realms: seq<CharacterRealm>): set<string>
  {
    set g | g in realms :: g.name
  }

  /** All characters of all groups, group after group. */
  function Flatten(realms: seq<CharacterRealm>): seq<Character>
  {
    if realms == [] then [] else realms[0].characters + Flatten(realms[1..])
  }

  predicate DistinctNames(realms: seq<CharacterRealm>)
  {
    forall i, j :: 0 <= i < j < |realms| ==> realms[i].name != realms[j].name
  }

  /** Every group is non-empty and holds exactly its realm's characters of `chars`, in input order. */
  predicate GroupsOf(realms: seq<CharacterRealm>, chars: seq<Character>)
  {
    forall g :: g in realms ==> g.characters != [] && g.characters == OnRealm(chars, g.name)
  }

  /** The position of the first group called `name` (`realms.find`). */
  function FindRealm(realms: seq<CharacterRealm>, name: string): (r: Option<nat>)
    ensures r.Some? ==> r.value < |realms| && realms[r.value].name == name
    ensures r.Some? ==> forall j :: 0 <= j < r.value ==> realms[j].name != name
    ensures r.None? ==> forall j :: 0 <= j < |realms| ==> realms[j].name != name
  {
    if realms == [] then None
    else if realms[0].name == name then Some(0)
    else match FindRealm(realms[1..], name)
      case None => None
      case Some(k) => Some(k + 1)
  }

  /** One step of the grouping loop: push onto the character's group, or open a new group. */
  function AddCharacter(realms: seq<CharacterRealm>, c: Character): seq<CharacterRealm>
  {
    match FindRealm(realms, c.realm.name)
    case Some(k) => Pushed(realms, k, c)
    case None => realms + [CharacterRealm(c.realm.name, [c])]
  }

  /** The groups after the grouping loop has seen `chars`, before sorting. */
  function Grouped(chars: seq<Character>): seq<CharacterRealm>
  {
    if chars == [] then [] else AddCharacter(Grouped(chars[..|chars| - 1]), chars[|chars| - 1])
  }

  lemma {:induction false} FlattenAppend(a: seq<CharacterRealm>, b: seq<CharacterRealm>)
    ensures Flatten(a + b) == Flatten(a) + Flatten(b)
  {
    if a == [] {
      assert a + b == b;
    } else {
      assert (a + b)[0] == a[0] && (a + b)[1..] == a[1..] + b;
      FlattenAppend(a[1..], b);
    }
  }

  lemma {:induction false} FlattenPush(realms: seq<CharacterRealm>, k: nat, c: Character)
    requires k < |realms|
    ensures multiset(Flatten(realms[k := realms[k].(characters := realms[k].characters + [c])]))
         == multiset(Flatten(realms)) + multiset{c}
  {
    var updated := realms[k := realms[k].(characters := realms[k].characters + [c])];
    if k == 0 {
      assert updated[1..] == realms[1..];
    } else {
      assert updated[1..] == realms[1..][k - 1 := realms[k].(characters := realms[k].characters + [c])];
      FlattenPush(realms[1..], k - 1, c);
    }
  }

  /** A realm that no character is on has no characters. */
  lemma NoneOnRealm(chars: seq<Character>, name: string)
    requires name !in RealmNamesOf(chars)
    ensures OnRealm(chars, name) == []
  {
  }

  /** `realms` partitions `chars` by realm name, one group per realm. */
  predicate PartitionOf(realms: seq<CharacterRealm>, chars: seq<Character>)
  {
    && GroupsOf(realms, chars)
    && DistinctNames(realms)
    && Names(realms) == RealmNamesOf(chars)
    && multiset(Flatten(realms)) == multiset(chars)
  }

  lemma OnRealmSnoc(prefix: seq<Character>, c: Character, n: string)
    ensures OnRealm(prefix + [c], n) == OnRealm(prefix, n) + (if c.realm.name == n then [c] else [])
  {
    assert (prefix + [c])[..|prefix|] == prefix;
  }

  /**
   * Grouping keeps input order: the realm's characters from an earlier part
   * of the input come before those from a later part.
   */
  lemma {:induction false} OnRealmAppend(a: seq<Character>, b: seq<Character>, n: string)
    ensures OnRealm(a + b, n) == OnRealm(a, n) + OnRealm(b, n)
  {
    if b == [] {
      assert a + b == a;
    } else {
      var front, x := b[..|b| - 1], b[|b| - 1];
      assert b == front + [x];
      assert a + b == (a + front) + [x];
      OnRealmAppend(a, front, n);
      OnRealmSnoc(a + front, x, n);
      OnRealmSnoc(front, x, n);
    }
  }

  lemma RealmNamesSnoc(prefix: seq<Character>, c: Character)
    ensures RealmNamesOf(prefix + [c]) == RealmNamesOf(prefix) + {c.realm.name}
  {
    var chars := prefix + [c];
    forall n ensures n in RealmNamesOf(chars) <==> n in RealmNamesOf(prefix) + {c.realm.name} {
      if n in RealmNamesOf(chars) {
        var x :| x in chars && x.realm.name == n;
        assert x == c || x in prefix;
      }
      if n in RealmNamesOf(prefix) {
        var x :| x in prefix && x.realm.name == n;
        assert x in chars;
      }
      assert c in chars;
    }
  }

  /** Pushing onto the group at `k`, as the loop does when `find` succeeds. */
  function Pushed(realms: seq<CharacterRealm>, k: nat, c: Character): seq<CharacterRealm>
    requires k < |realms|
  {
    realms[k := realms[k].(characters := realms[k].characters + [c])]
  }

  lemma PushKeepsGroups(before: seq<CharacterRealm>, prefix: seq<Character>, c: Character, k: nat)
    requires GroupsOf(before, prefix) && DistinctNames(before)
    requires k < |before| && before[k].name == c.realm.name
    ensures GroupsOf(Pushed(before, k, c), prefix + [c])
  {
    var after := Pushed(before, k, c);
    forall g | g in after
      ensures g.characters != [] && g.characters == OnRealm(prefix + [c], g.name)
    {
      var i :| 0 <= i < |after| && after[i] == g;
      OnRealmSnoc(prefix, c, g.name);
      assert before[i] in before;
      if i != k {
        assert before[i].name != c.realm.name;
      }
    }
  }

  lemma PushKeepsNames(before: seq<CharacterRealm>, k: nat, c: Character)
    requires k < |before|
    ensures Names(Pushed(before, k, c)) == Names(before)
    ensures DistinctNames(before) ==> DistinctNames(Pushed(before, k, c))
  {
    var after := Pushed(before, k, c);
    forall n ensures n in Names(after) <==> n in Names(before) {
      if n in Names(after) {
        var g :| g in after && g.name == n;
        var i :| 0 <= i < |after| && after[i] == g;
        assert before[i].name == n && before[i] in before;
      }
      if n in Names(before) {
        var g :| g in before && g.name == n;
        var i :| 0 <= i < |before| && before[i] == g;
        assert after[i].name == n && after[i] in after;
      }
    }
  }

  /** Pushing a character onto its realm's existing group keeps the partition. */
  lemma PushKeepsPartition(before: seq<CharacterRealm>, prefix: seq<Character>, c: Character, k: nat)
    requires PartitionOf(before, prefix)
    requires k < |before| && before[k].name == c.realm.name
    ensures PartitionOf(Pushed(before, k, c), prefix + [c])
  {
    PushKeepsGroups(before, prefix, c, k);
    PushKeepsNames(before, k, c);
    RealmNamesSnoc(prefix, c);
    assert c.realm.name in Names(before) by {
      assert before[k] in before;
    }
    FlattenPush(before, k, c);
  }

  lemma OpenKeepsGroups(before: seq<CharacterRealm>, prefix: seq<Character>, c: Character)
    requires GroupsOf(before, prefix) && Names(before) == RealmNamesOf(prefix)
    requires forall j :: 0 <= j < |before| ==> before[j].name != c.realm.name
    ensures GroupsOf(before + [CharacterRealm(c.realm.name, [c])], prefix + [c])
  {
    var newGroup := CharacterRealm(c.realm.name, [c]);
    var after := before + [newGroup];
    assert c.realm.name !in Names(before);
    NoneOnRealm(prefix, c.realm.name);
    forall g | g in after
      ensures g.characters != [] && g.characters == OnRealm(prefix + [c], g.name)
    {
      OnRealmSnoc(prefix, c, g.name);
      if g != newGroup {
        assert g in before;
        var i :| 0 <= i < |before| && before[i] == g;
        assert g.name != c.realm.name;
      }
    }
  }

  lemma OpenKeepsNames(before: seq<CharacterRealm>, g: CharacterRealm)
    requires DistinctNames(before) && g.name !in Names(before)
    ensures Names(before + [g]) == Names(before) + {g.name}
    ensures DistinctNames(before + [g])
  {
    var after := before + [g];
    forall n ensures n in Names(after) <==> n in Names(before) + {g.name} {
      if n in Names(after) {
        var h :| h in after && h.name == n;
        assert h == g || h in before;
      }
      if n in Names(before) {
        var h :| h in before && h.name == n;
        assert h in after;
      }
      assert g in after;
    }
    forall i, j | 0 <= i < j < |after| ensures after[i].name != after[j].name {
      if j == |before| {
        assert after[i] in before;
      }
    }
  }

  /** Opening a group for a realm not seen yet keeps the partition. */
  lemma OpenKeepsPartition(before: seq<CharacterRealm>, prefix: seq<Character>, c: Character)
    requires PartitionOf(before, prefix)
    requires forall j :: 0 <= j < |before| ==> before[j].name != c.realm.name
    ensures PartitionOf(before + [CharacterRealm(c.realm.name, [c])], prefix + [c])
  {
    var newGroup := CharacterRealm(c.realm.name, [c]);
    OpenKeepsGroups(before, prefix, c);
    RealmNamesSnoc(prefix, c);
    OpenKeepsNames(before, newGroup);
    FlattenAppend(before, [newGroup]);
    assert Flatten([newGroup]) == [c];
  }

  /** The grouping loop partitions its input by realm name. */
  lemma {:induction false} GroupedIsPartition(chars: seq<Character>)
    ensures PartitionOf(Grouped(chars), chars)
  {
    if chars != [] {
      var prefix, c := chars[..|chars| - 1], chars[|chars| - 1];
      assert chars == prefix + [c];
      GroupedIsPartition(prefix);
      var before := Grouped(prefix);
      match FindRealm(before, c.realm.name)
      case Some(k) => PushKeepsPartition(before, prefix, c, k);
      case None => OpenKeepsPartition(before, prefix, c);
    }
  }

  /** Ascending by name; equal names may sit side by side. */
  predicate SortedByName(realms: seq<CharacterRealm>)
  {
    forall i, j :: 0 <= i < j < |realms| ==> !Collation.Before(realms[j].name, realms[i].name)
  }

  /** Insert `g` before the first group that does not sort before it (stable insertion). */
  function InsertByName(g: CharacterRealm, sorted: seq<CharacterRealm>): (r: seq<CharacterRealm>)
    ensures multiset(r) == multiset(sorted) + multiset{g}
  {
    if sorted == [] || !Collation.Before(sorted[0].name, g.name) then [g] + sorted
    else
      assert sorted == [sorted[0]] + sorted[1..];
      [sorted[0]] + InsertByName(g, sorted[1..])
  }

  /** Insertion into a name-sorted sequence keeps it sorted. */
  lemma {:induction false} InsertByNameSorted(g: CharacterRealm, sorted: seq<CharacterRealm>)
    requires SortedByName(sorted)
    ensures SortedByName(InsertByName(g, sorted))
  {
    if sorted == [] || !Collation.Before(sorted[0].name, g.name) {
      var r := [g] + sorted;
      forall j | 0 <= j < |sorted| ensures !Collation.Before(sorted[j].name, g.name) {
        if j > 0 {
          Collation.NotAfterTransitive(g.name, sorted[0].name, sorted[j].name);
        }
      }
      forall i, j | 0 <= i < j < |r| ensures !Collation.Before(r[j].name, r[i].name) {
        if i > 0 {
          assert r[i] == sorted[i - 1] && r[j] == sorted[j - 1];
        }
      }
    } else {
      var tail := sorted[1..];
      InsertByNameSorted(g, tail);
      Collation.BeforeAsymmetric(sorted[0].name, g.name);
      InsertByNameBounded(g, tail, sorted[0].name);
      var rest := InsertByName(g, tail);
      var r := [sorted[0]] + rest;
      forall i, j | 0 <= i < j < |r| ensures !Collation.Before(r[j].name, r[i].name) {
        if i > 0 {
          assert r[i] == rest[i - 1];
        }
        assert r[j] == rest[j - 1];
      }
    }
  }

  /** Insertion adds no group that sorts before `m` when neither `g` nor `sorted` has one. */
  lemma {:induction false} InsertByNameBounded(g: CharacterRealm, sorted: seq<CharacterRealm>, m: string)
    requires !Collation.Before(g.name, m)
    requires forall j :: 0 <= j < |sorted| ==> !Collation.Before(sorted[j].name, m)
    ensures forall j :: 0 <= j < |InsertByName(g, sorted)| ==> !Collation.Before(InsertByName(g, sorted)[j].name, m)
  {
    if sorted != [] && Collation.Before(sorted[0].name, g.name) {
      InsertByNameBounded(g, sorted[1..], m);
    }
  }

  lemma {:induction false} InsertByNameFlatten(g: CharacterRealm, sorted: seq<CharacterRealm>)
    ensures multiset(Flatten(InsertByName(g, sorted))) == multiset(g.characters) + multiset(Flatten(sorted))
  {
    if sorted != [] && Collation.Before(sorted[0].name, g.name) {
      InsertByNameFlatten(g, sorted[1..]);
      var r := InsertByName(g, sorted);
      assert r[0] == sorted[0] && r[1..] == InsertByName(g, sorted[1..]);
    } else {
      assert ([g] + sorted)[1..] == sorted;
    }
  }

  /** Insertion brings in no group named `name` unless `g` or `sorted` has one. */
  lemma {:induction false} InsertByNameAvoids(g: CharacterRealm, sorted: seq<CharacterRealm>, name: string)
    requires g.name != name
    requires forall j :: 0 <= j < |sorted| ==> sorted[j].name != name
    ensures forall j :: 0 <= j < |InsertByName(g, sorted)| ==> InsertByName(g, sorted)[j].name != name
  {
    if sorted != [] && Collation.Before(sorted[0].name, g.name) {
      InsertByNameAvoids(g, sorted[1..], name);
    }
  }

  lemma {:induction false} InsertByNameDistinct(g: CharacterRealm, sorted: seq<CharacterRealm>)
    requires DistinctNames(sorted)
    requires forall h :: h in sorted ==> h.name != g.name
    ensures DistinctNames(InsertByName(g, sorted))
  {
    if sorted == [] || !Collation.Before(sorted[0].name, g.name) {
      var r := [g] + sorted;
      forall i, j | 0 <= i < j < |r| ensures r[i].name != r[j].name {
        assert r[j] == sorted[j - 1];
        if i > 0 {
          assert r[i] == sorted[i - 1];
        }
      }
    } else {
      var tail := sorted[1..];
      InsertByNameDistinct(g, tail);
      InsertByNameAvoids(g, tail, sorted[0].name);
      var rest := InsertByName(g, tail);
      var r := [sorted[0]] + rest;
      forall i, j | 0 <= i < j < |r| ensures r[i].name != r[j].name {
        assert r[j] == rest[j - 1];
        if i > 0 {
          assert r[i] == rest[i - 1];
        }
      }
    }
  }

  /** `realms.sort` by name: a stable insertion sort. */
  function SortByName(realms: seq<CharacterRealm>): (r: seq<CharacterRealm>)
    ensures multiset(r) == multiset(realms)
    ensures SortedByName(r)
  {
    if realms == [] then []
    else
      assert realms == [realms[0]] + realms[1..];
      var rest := SortByName(realms[1..]);
      InsertByNameSorted(realms[0], rest);
      InsertByName(realms[0], rest)
  }

  lemma {:induction false} SortByNameKeepsGroups(realms: seq<CharacterRealm>)
    ensures multiset(Flatten(SortByName(realms))) == multiset(Flatten(realms))
    ensures DistinctNames(realms) ==> DistinctNames(SortByName(realms))
  {
    if realms != [] {
      var rest := SortByName(realms[1..]);
      SortByNameKeepsGroups(realms[1..]);
      InsertByNameFlatten(realms[0], rest);
      if DistinctNames(realms) {
        forall h | h in rest ensures h.name != realms[0].name {
          assert h in multiset(rest);
          var k :| 0 <= k < |realms[1..]| && realms[1..][k] == h;
          assert realms[k + 1] == h;
        }
        InsertByNameDistinct(realms[0], rest);
      }
    }
  }

  /**
   * getCharactersByRealm: the account's characters grouped by realm name,
   * groups in ascending name order. The loop pushes onto the group that
   * `find` returns, or opens a new group; the groups are then sorted.
   */
  method CharactersByRealm(characters: seq<Character>) returns (realms: seq<CharacterRealm>)
    ensures forall g :: g in realms ==> g.characters != [] && g.characters == OnRealm(characters, g.name)
    ensures Names(realms) == RealmNamesOf(characters)
    ensures forall i, j :: 0 <= i < j < |realms| ==> Collation.Before(realms[i].name, realms[j].name)
    ensures multiset(Flatten(realms)) == multiset(characters)
  {
    var groups: seq<CharacterRealm> := [];
    var i := 0;
    while i < |characters|
      invariant 0 <= i <= |characters|
      invariant groups == Grouped(characters[..i])
    {
      var c := characters[i];
      assert characters[..i + 1][..i] == characters[..i];
      var found := FindRealm(groups, c.realm.name);
      if found.Some? {
        var k := found.value;
        groups := groups[k := groups[k].(characters := groups[k].characters + [c])];
      } else {
        groups := groups + [CharacterRealm(c.realm.name, [c])];
      }
      i := i + 1;
    }
    assert characters[..i] == characters;
    GroupedIsPartition(characters);
    realms := SortByName(groups);
    SortedPartition(groups, characters);
  }

  /** Sorting a partition by name keeps it a partition and orders its names strictly. */
  lemma SortedPartition(groups: seq<CharacterRealm>, chars: seq<Character>)
    requires PartitionOf(groups, chars)
    ensures PartitionOf(SortByName(groups), chars)
    ensures forall i, j :: 0 <= i < j < |SortByName(groups)| ==>
      Collation.Before(SortByName(groups)[i].name, SortByName(groups)[j].name)
  {
    var realms := SortByName(groups);
    SortByNameKeepsGroups(groups);
    assert forall g :: g in realms <==> g in groups by {
      forall g ensures g in realms <==> g in groups {
        assert g in realms <==> g in multiset(realms);
      }
    }
    assert Names(realms) == Names(groups);
    forall i, j | 0 <= i < j < |realms|
      ensures Collation.Before(realms[i].name, realms[j].name)
    {
      Collation.BeforeTotal(realms[i].name, realms[j].name);
    }
  }

  // ---------------------------------------------------------------------------
  // Importable characters of a realm (RealmView)
  // ---------------------------------------------------------------------------

  /** The characters whose id is not among the imported ids, in input order (the filter at line 167). */
  function NotImported(chars: seq<Character>, imported: seq<int>): (r: seq<Character>)
    ensures forall c :: multiset(r)[c] == if c.id in imported then 0 else multiset(chars)[c]
  {
    if chars == [] then []
    else
      assert chars == [chars[0]] + chars[1..];
      (if chars[0].id in imported then [] else [chars[0]]) + NotImported(chars[1..], imported)
  }

  predicate ByLevelDescending(chars: seq<Character>)
  {
    forall i, j :: 0 <= i < j < |chars| ==> chars[i].level >= chars[j].level
  }

  /** Insert `c` before the first character of no higher level (stable insertion). */
  function InsertByLevel(c: Character, sorted: seq<Character>): (r: seq<Character>)
    ensures multiset(r) == multiset(sorted) + multiset{c}
  {
    if sorted == [] || sorted[0].level <= c.level then [c] + sorted
    else
      assert sorted == [sorted[0]] + sorted[1..];
      [sorted[0]] + InsertByLevel(c, sorted[1..])
  }

  /** Insertion adds no character above a level bound that `c` and `sorted` respect. */
  lemma {:induction false} InsertByLevelBounded(c: Character, sorted: seq<Character>, bound: int)
    requires c.level <= bound
    requires forall j :: 0 <= j < |sorted| ==> sorted[j].level <= bound
    ensures forall j :: 0 <= j < |InsertByLevel(c, sorted)| ==> InsertByLevel(c, sorted)[j].level <= bound
  {
    if sorted != [] && c.level < sorted[0].level {
      InsertByLevelBounded(c, sorted[1..], bound);
    }
  }

  /** Insertion into a level-sorted sequence keeps it sorted. */
  lemma {:induction false} InsertByLevelSorted(c: Character, sorted: seq<Character>)
    requires ByLevelDescending(sorted)
    ensures ByLevelDescending(InsertByLevel(c, sorted))
  {
    if sorted == [] || sorted[0].level <= c.level {
      var r := [c] + sorted;
      forall i, j | 0 <= i < j < |r| ensures r[i].level >= r[j].level {
        if i > 0 {
          assert r[i] == sorted[i - 1];
        }
        assert r[j] == sorted[j - 1];
      }
    } else {
      var tail := sorted[1..];
      InsertByLevelSorted(c, tail);
      InsertByLevelBounded(c, tail, sorted[0].level);
      var rest := InsertByLevel(c, tail);
      var r := [sorted[0]] + rest;
      forall i, j | 0 <= i < j < |r| ensures r[i].level >= r[j].level {
        if i > 0 {
          assert r[i] == rest[i - 1];
        }
        assert r[j] == rest[j - 1];
      }
    }
  }

  /** `sort((a, b) => b.level - a.level)`: a stable insertion sort, highest level first. */
  function SortByLevel(chars: seq<Character>): (r: seq<Character>)
    ensures multiset(r) == multiset(chars)
    ensures ByLevelDescending(r)
  {
    if chars == [] then []
    else
      assert chars == [chars[0]] + chars[1..];
      var rest := SortByLevel(chars[1..]);
      InsertByLevelSorted(chars[0], rest);
      InsertByLevel(chars[0], rest)
  }

  /**
   * RealmView's importable characters: the realm's characters whose id is
   * not among the imported ids, highest level first.
   */
  function Importable(realm: CharacterRealm, imported: seq<int>): (r: seq<Character>)
    ensures forall c :: multiset(r)[c] == if c.id in imported then 0 else multiset(realm.characters)[c]
    ensures forall c :: c in r <==> c in realm.characters && c.id !in imported
    ensures ByLevelDescending(r)
  {
    var r := SortByLevel(NotImported(realm.characters, imported));
    assert forall c :: c in r <==> c in realm.characters && c.id !in imported by {
      forall c ensures c in r <==> c in realm.characters && c.id !in imported {
        assert c in r <==> c in multiset(r);
        assert c in realm.characters <==> c in multiset(realm.characters);
      }
    }
    r
  }

  // ---------------------------------------------------------------------------
  // The pending selection (AccountView's onChange, RealmView's "Select all")
  // ---------------------------------------------------------------------------

  /** The elements of `s` that do not occur in `t`, in order. */
  function Minus(s: seq<Character>, t: seq<Character>): (r: seq<Character>)
    ensures forall x :: x in r <==> x in s && x !in t
  {
    if s == [] then []
    else
      assert s == [s[0]] + s[1..];
      (if s[0] in t then [] else [s[0]]) + Minus(s[1..], t)
  }

  /** Minus keeps every occurrence of what it does not remove. */
  lemma {:induction false} MinusCounts(s: seq<Character>, t: seq<Character>)
    ensures forall x :: multiset(Minus(s, t))[x] == if x in t then 0 else multiset(s)[x]
  {
    if s != [] {
      assert s == [s[0]] + s[1..];
      MinusCounts(s[1..], t);
    }
  }

  lemma {:induction false} MinusAppend(a: seq<Character>, b: seq<Character>, t: seq<Character>)
    ensures Minus(a + b, t) == Minus(a, t) + Minus(b, t)
  {
    if a == [] {
      assert a + b == b;
    } else {
      assert (a + b)[0] == a[0] && (a + b)[1..] == a[1..] + b;
      MinusAppend(a[1..], b, t);
    }
  }

  lemma {:induction false} MinusNothing(s: seq<Character>, t: seq<Character>)
    requires forall x :: x in t ==> x !in s
    ensures Minus(s, t) == s
  {
    if s != [] {
      assert s[0] in s;
      MinusNothing(s[1..], t);
    }
  }

  lemma {:induction false} MinusTwice(s: seq<Character>, t: seq<Character>, c: Character)
    ensures Minus(Minus(s, t), [c]) == Minus(s, t + [c])
  {
    if s != [] {
      var head := if s[0] in t then [] else [s[0]];
      MinusAppend(head, Minus(s[1..], t), [c]);
      MinusTwice(s[1..], t, c);
    }
  }

  /**
   * AccountView's onChange for one character: the decision reads the
   * selection of the last render (`charsToImport`), the update applies to the
   * latest queued selection (`prev`).
   */
  function ToggleStep(shown: seq<Character>, prev: seq<Character>, c: Character): (r: seq<Character>)
    ensures c in shown ==> forall x :: x in r <==> x in prev && x != c
    ensures c !in shown ==> |r| == |prev| + 1 && r[..|prev|] == prev && r[|prev|] == c
  {
    if c in shown then Minus(prev, [c]) else prev + [c]
  }

  /** A single click on a character's checkbox, when no other update is queued. */
  function Toggle(selected: seq<Character>, c: Character): (r: seq<Character>)
    ensures c in selected ==> c !in r && forall x :: x != c ==> multiset(r)[x] == multiset(selected)[x]
    ensures c !in selected ==> r == selected + [c]
    ensures c in r <==> c !in selected
  {
    MinusCounts(selected, [c]);
    ToggleStep(selected, selected, c)
  }

  /** Selecting an unselected character and toggling it again restores the selection. */
  lemma ToggleTwice(selected: seq<Character>, c: Character)
    ensures c !in selected ==> Toggle(Toggle(selected, c), c) == selected
    ensures c in selected ==> Toggle(Toggle(selected, c), c) == Minus(selected, [c]) + [c]
  {
    if c !in selected {
      MinusAppend(selected, [c], [c]);
      MinusNothing(selected, [c]);
    }
  }

  /**
   * The "Select all" button: onChange for each importable character in turn,
   * every decision made against the same rendered selection. The characters
   * of the list that were selected are removed, and those that were not are
   * appended, in list order.
   */
  method SelectAll(shown: seq<Character>, importable: seq<Character>) returns (pending: seq<Character>)
    ensures pending == Minus(shown, importable) + Minus(importable, shown)
  {
    pending := shown;
    MinusNothing(shown, []);
    var i := 0;
    while i < |importable|
      invariant 0 <= i <= |importable|
      invariant pending == Minus(shown, importable[..i]) + Minus(importable[..i], shown)
    {
      var c := importable[i];
      assert importable[..i + 1] == importable[..i] + [c];
      SelectAllStep(shown, importable[..i], c);
      pending := ToggleStep(shown, pending, c);
      i := i + 1;
    }
    assert importable[..i] == importable;
  }

  lemma MinusSingleton(c: Character, t: seq<Character>)
    ensures Minus([c], t) == if c in t then [] else [c]
  {
    assert [c][1..] == [];
  }

  /** One iteration of the "Select all" loop keeps its closed form. */
  lemma SelectAllStep(shown: seq<Character>, done: seq<Character>, c: Character)
    ensures ToggleStep(shown, Minus(shown, done) + Minus(done, shown), c)
         == Minus(shown, done + [c]) + Minus(done + [c], shown)
  {
    MinusAppend(done, [c], shown);
    MinusSingleton(c, shown);
    MinusTwice(shown, done, c);
    if c in shown {
      SelectAllStepSelected(shown, done, c);
    } else {
      SelectAllStepUnselected(shown, done, c);
    }
  }

  /** The step for a character of the rendered selection: it leaves the selected part. */
  lemma SelectAllStepSelected(shown: seq<Character>, done: seq<Character>, c: Character)
    requires c in shown
    ensures Minus(Minus(shown, done) + Minus(done, shown), [c]) == Minus(shown, done + [c]) + Minus(done, shown)
  {
    var selectedPart, listedPart := Minus(shown, done), Minus(done, shown);
    MinusAppend(selectedPart, listedPart, [c]);
    MinusNothing(listedPart, [c]);
    MinusTwice(shown, done, c);
  }

  /** The step for a character outside the rendered selection: it joins the listed part. */
  lemma SelectAllStepUnselected(shown: seq<Character>, done: seq<Character>, c: Character)
    requires c !in shown
    ensures (Minus(shown, done) + Minus(done, shown)) + [c] == Minus(shown, done + [c]) + (Minus(done, shown) + [c])
  {
    var selectedPart := Minus(shown, done);
    MinusNothing(selectedPart, [c]);
    MinusTwice(shown, done, c);
  }

  /** The button's caption: "Select all" or "Deselect all". */
  datatype SelectAllCaption = SelectAllLabel | DeselectAllLabel

  /** The caption as written: it looks at every character of the realm, imported ones included. */
  function CaptionForRealm(realm: CharacterRealm, shown: seq<Character>): (r: SelectAllCaption)
    ensures r == DeselectAllLabel <==> forall c :: c in realm.characters ==> c in shown
  {
    if forall c :: c in realm.characters ==> c in shown then DeselectAllLabel else SelectAllLabel
  }

  /** When the caption reads "Deselect all", the click leaves no listed character selected. */
  lemma DeselectAllDeselects(realm: CharacterRealm, imported: seq<int>, shown: seq<Character>)
    requires CaptionForRealm(realm, shown) == DeselectAllLabel
    ensures forall c :: c in Importable(realm, imported) ==>
      c !in Minus(shown, Importable(realm, imported)) + Minus(Importable(realm, imported), shown)
  {
  }

  /**
   * An imported character of the realm keeps the caption at "Select all" even
   * when every listed character is selected, and the click then deselects them.
   */
  lemma CaptionCountsImportedCharacters(a: Character, b: Character)
    requires a.id != b.id && a.realm.name == b.realm.name
    ensures var realm := CharacterRealm(a.realm.name, [a, b]);
      && Importable(realm, [a.id]) == [b]
      && CaptionForRealm(realm, [b]) == SelectAllLabel
      && Minus([b], [b]) + Minus([b], [b]) == []
  {
    var realm := CharacterRealm(a.realm.name, [a, b]);
    var r := Importable(realm, [a.id]);
    assert multiset(r) == multiset{b};
    assert |r| == 1;
    assert r[0] in r;
    assert a !in [b];
  }

  /** The caption as intended: it looks at the characters the realm lists for import. */
  function CaptionForListed(importable: seq<Character>, shown: seq<Character>): (r: SelectAllCaption)
    ensures r == DeselectAllLabel <==> forall c :: c in importable ==> c in shown
  {
    if forall c :: c in importable ==> c in shown then DeselectAllLabel else SelectAllLabel
  }

  /**
   * Clicking "Select all" while one listed character is selected and another
   * is not swaps them instead of selecting both.
   */
  lemma SelectAllTogglesEach(b: Character, c: Character)
    requires b != c
    ensures CaptionForListed([b, c], [b]) == SelectAllLabel
    ensures Minus([b], [b, c]) + Minus([b, c], [b]) == [c]
  {
    MinusSingleton(b, [b, c]);
    MinusSingleton(c, [b]);
    assert [b, c] == [b] + [c];
    MinusAppend([b], [c], [b]);
    MinusSingleton(b, [b]);
  }

  /** The button as intended: select every listed character, or deselect them all. */
  function SelectAllListed(shown: seq<Character>, importable: seq<Character>): (r: seq<Character>)
    ensures CaptionForListed(importable, shown) == SelectAllLabel ==>
      (forall c :: c in importable ==> c in r) && |shown| <= |r| && r[..|shown|] == shown
    ensures CaptionForListed(importable, shown) == SelectAllLabel ==>
      forall c :: c in r[|shown|..] <==> c in importable && c !in shown
    ensures CaptionForListed(importable, shown) == SelectAllLabel ==> r == shown + Minus(importable, shown)
    ensures CaptionForListed(importable, shown) == DeselectAllLabel ==>
      (forall c :: c in importable ==> c !in r) && (forall c :: c !in importable ==> multiset(r)[c] == multiset(shown)[c])
    ensures CaptionForListed(importable, shown) == DeselectAllLabel ==> r == Minus(shown, importable)
    ensures importable != [] ==> CaptionForListed(importable, r) != CaptionForListed(importable, shown)
  {
    if forall c :: c in importable ==> c in shown then
      MinusCounts(shown, importable);
      assert importable != [] ==> importable[0] in importable;
      Minus(shown, importable)
    else
      var r := shown + Minus(importable, shown);
      assert r[..|shown|] == shown && r[|shown|..] == Minus(importable, shown);
      r
  }

  // ---------------------------------------------------------------------------
  // The account's display label (AccountView)
  // ---------------------------------------------------------------------------

  /** What the account header shows: a label text, or the numeric account id. */
  datatype AccountCaption = LabelText(text: string) | AccountNumber(id: int)

  /** `k` is the position of the first label stored for `accountId`. */
  predicate FirstLabelFor(labels: seq<AccountLabel>, accountId: int, k: int)
  {
    0 <= k < |labels| && labels[k].accountId == accountId
    && forall j :: 0 <= j < k ==> labels[j].accountId != accountId
  }

  /** The position of the first label stored for the account, if any (the lookup at line 104). */
  function FindLabel(labels: seq<AccountLabel>, accountId: int): (r: Option<nat>)
    ensures r.Some? ==> FirstLabelFor(labels, accountId, r.value)
    ensures r.None? ==> forall j :: 0 <= j < |labels| ==> labels[j].accountId != accountId
  {
    if labels == [] then None
    else if labels[0].accountId == accountId then Some(0)
    else match FindLabel(labels[1..], accountId)
      case None => None
      case Some(k) => Some(k + 1)
  }

  /**
   * The initial label: the first matching label's text, unless there is no
   * match or its text is absent or empty, in which case the account id.
   */
  function DefaultCaption(labels: seq<AccountLabel>, accountId: int): (r: AccountCaption)
    ensures forall k :: FirstLabelFor(labels, accountId, k) ==>
      r == match labels[k].labelText
           case Some(t) => if t != "" then LabelText(t) else AccountNumber(accountId)
           case None => AccountNumber(accountId)
    ensures (forall j :: 0 <= j < |labels| ==> labels[j].accountId != accountId) ==> r == AccountNumber(accountId)
    ensures r.LabelText? ==> r.text != ""
    ensures r.AccountNumber? ==> r.id == accountId
  {
    match FindLabel(labels, accountId)
    case Some(k) =>
      (match labels[k].labelText
       case Some(t) => if t != "" then LabelText(t) else AccountNumber(accountId)
       case None => AccountNumber(accountId))
    case None => AccountNumber(accountId)
  }
}
