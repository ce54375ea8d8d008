/** The `Entry` record shared by the client and the server, and the two list queries both
    sides perform on it: the first entry with a given id, and the entries without it. */
module Context {
  import opened Js

  /** A date field of an entry: typed `Date | string`, a Date object on the server and
      its serialized form once it has crossed the network. */
  datatype Stamp = AsDate(date: Date) | AsText(text: string)

  /** A journal entry; `id` is optional on the client before the server has assigned one. */
  datatype Entry = Entry(
    id: Option<string>,
    title: string,
    description: string,
    created_at: Stamp,
    scheduled_date: Stamp)

  /** Some entry of `s` carries the id `id`. */
  predicate HasId(s: seq<Entry>, id: string) {
    exists i :: 0 <= i < |s| && s[i].id == Some(id)
  }

  /** No two entries of `s` share an id. */
  predicate UniqueIds(s: seq<Entry>) {
    forall i, j :: 0 <= i < j < |s| ==> s[i].id != s[j].id
  }

  /** The index of the first entry whose id is `id` (`findIndex(obj => obj.id == id)`),
      or None where `findIndex` gives -1. An entry without an id never matches. */
  function FirstIndexOf(s: seq<Entry>, id: string): (r: Option<nat>)
    ensures r.Some? ==> r.value < |s| && s[r.value].id == Some(id)
    ensures r.Some? ==> forall j :: 0 <= j < r.value ==> s[j].id != Some(id)
    ensures r.None? <==> !HasId(s, id)
  {
    if s == [] then None
    else if s[0].id == Some(id) then Some(0)
    else
      var r := FirstIndexOf(s[1..], id);
      if r.None? then
        assert forall i :: 1 <= i < |s| ==> s[i] == s[1..][i - 1];
        None
      else
        Some(r.value + 1)
  }

  /** With unique ids, the first entry carrying `id` is the only one. */
  lemma FirstIndexOfUnique(s: seq<Entry>, id: string, i: nat)
    requires UniqueIds(s)
    requires i < |s| && s[i].id == Some(id)
    ensures FirstIndexOf(s, id) == Some(i)
  {
  }

  /** `s.filter(entry => entry.id != id)`: the entries whose id is not `id`, in order. */
  function WithoutId(s: seq<Entry>, id: string): (r: seq<Entry>)
    ensures |r| <= |s|
    ensures forall e :: e in r <==> e in s && e.id != Some(id)
  {
    if s == [] then []
    else
      var rest := WithoutId(s[1..], id);
      assert forall e :: e in s <==> e == s[0] || e in s[1..];
      if s[0].id == Some(id) then rest else [s[0]] + rest
  }

  /** Filtering distributes over concatenation, so the kept entries stay in their original
      order; with the one-element case this determines `WithoutId` completely. */
  lemma {:induction false} WithoutIdAppend(a: seq<Entry>, b: seq<Entry>, id: string)
    ensures WithoutId(a + b, id) == WithoutId(a, id) + WithoutId(b, id)
  {
    if a == [] {
      assert a + b == b;
    } else {
      assert (a + b)[1..] == a[1..] + b;
      WithoutIdAppend(a[1..], b, id);
    }
  }

  /** A list in which no entry carries `id` is left as it is. */
  lemma {:induction false} WithoutIdNoMatch(s: seq<Entry>, id: string)
    requires !HasId(s, id)
    ensures WithoutId(s, id) == s
  {
    if s != [] {
      assert !HasId(s[1..], id) by {
        forall i | 0 <= i < |s[1..]| ensures s[1..][i].id != Some(id) {
          assert s[1..][i] == s[i + 1];
        }
      }
      WithoutIdNoMatch(s[1..], id);
    }
  }

  /** No entry with the id remains. */
  lemma WithoutIdRemovesAll(s: seq<Entry>, id: string)
    ensures !HasId(WithoutId(s, id), id)
  {
    var r := WithoutId(s, id);
    forall i | 0 <= i < |r| ensures r[i].id != Some(id) {
      assert r[i] in r;
    }
  }

  /** Filtering twice by the same id is filtering once. */
  lemma WithoutIdIdempotent(s: seq<Entry>, id: string)
    ensures WithoutId(WithoutId(s, id), id) == WithoutId(s, id)
  {
    WithoutIdRemovesAll(s, id);
    WithoutIdNoMatch(WithoutId(s, id), id);
  }

  /** Where ids are unique, cutting out the one entry with the id is the same as keeping
      every entry whose id differs. */
  lemma RemoveAtIsWithoutId(s: seq<Entry>, id: string, i: nat)
    requires UniqueIds(s)
    requires i < |s| && s[i].id == Some(id)
    ensures s[..i] + s[i + 1..] == WithoutId(s, id)
  {
    assert s == s[..i] + ([s[i]] + s[i + 1..]);
    WithoutIdAppend(s[..i], [s[i]] + s[i + 1..], id);
    WithoutIdAppend([s[i]], s[i + 1..], id);
    assert !HasId(s[..i], id) by {
      forall j | 0 <= j < i ensures s[..i][j].id != Some(id) {
        assert s[..i][j] == s[j];
      }
    }
    var tail := s[i + 1..];
    assert !HasId(tail, id) by {
      forall j | 0 <= j < |tail| ensures tail[j].id != Some(id) {
        assert tail[j] == s[i + 1 + j];
      }
    }
    WithoutIdNoMatch(s[..i], id);
    WithoutIdNoMatch(s[i + 1..], id);
    assert WithoutId([s[i]], id) == [] by {
      assert [s[i]][1..] == [];
    }
  }

  /** Removing entries keeps ids unique. */
  lemma WithoutIdKeepsUnique(s: seq<Entry>, id: string, i: nat)
    requires UniqueIds(s)
    requires i < |s| && s[i].id == Some(id)
    ensures UniqueIds(WithoutId(s, id))
  {
    RemoveAtIsWithoutId(s, id, i);
    var r := s[..i] + s[i + 1..];
    forall a, b | 0 <= a < b < |r| ensures r[a].id != r[b].id {
      var a' := if a < i then a else a + 1;
      var b' := if b < i then b else b + 1;
      assert r[a] == s[a'] && r[b] == s[b'];
    }
  }
}
