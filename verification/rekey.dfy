/** The list-to-map re-keying of main.js: `readActiveTeachers` and `readThreadsMeta` turn
    the scraped lists into objects keyed by id, with `map[t.id] = t; delete t.id;`. */
module Rekey {

  /** A scraped entry: its `id` and the rest of the object, which is what the map stores
      once `delete t.id` has run. */
  datatype Keyed<V> = Keyed(id: string, value: V)

  /** `list.forEach((t) => { acc[t.id] = t; delete t.id; })`, from left to right. */
  function Rekey<V>(acc: map<string, V>, list: seq<Keyed<V>>): (r: map<string, V>)
    ensures acc.Keys <= r.Keys
    ensures forall j :: 0 <= j < |list| ==> list[j].id in r
  {
    if list == [] then acc
    else
      var n := |list| - 1;
      Rekey(acc, list[..n])[list[n].id := list[n].value]
  }

  /** The ids of the entries of `list`. */
  function Ids<V>(list: seq<Keyed<V>>): set<string>
  {
    set j | 0 <= j < |list| :: list[j].id
  }

  /** No entry after position `j` has the same id as entry `j`. */
  predicate LastWithId<V>(list: seq<Keyed<V>>, j: int)
  {
    0 <= j < |list| && forall k :: j < k < |list| ==> list[k].id != list[j].id
  }

  /** The ids of `list` are those of all entries but the last, plus the last one's. */
  lemma IdsOfFront<V>(list: seq<Keyed<V>>)
    requires list != []
    ensures Ids(list) == Ids(list[..|list| - 1]) + {list[|list| - 1].id}
  {
    var n := |list| - 1;
    var front := list[..n];
    forall x | x in Ids(list)
      ensures x in Ids(front) + {list[n].id}
    {
      var j :| 0 <= j < |list| && list[j].id == x;
      if j < n {
        assert front[j].id == x;
      }
    }
    forall x | x in Ids(front)
      ensures x in Ids(list)
    {
      var j :| 0 <= j < n && front[j].id == x;
      assert list[j].id == x;
    }
  }

  /** The keys after re-keying are those of `acc` and the ids of the list. */
  lemma {:induction false} RekeyKeys<V>(acc: map<string, V>, list: seq<Keyed<V>>)
    ensures Rekey(acc, list).Keys == acc.Keys + Ids(list)
    decreases |list|
  {
    if list != [] {
      RekeyKeys(acc, list[..|list| - 1]);
      IdsOfFront(list);
    }
  }

  /** An id of the list maps to the value of its last occurrence. */
  lemma {:induction false} RekeyLastWins<V>(acc: map<string, V>, list: seq<Keyed<V>>, j: int)
    requires LastWithId(list, j)
    ensures list[j].id in Rekey(acc, list) && Rekey(acc, list)[list[j].id] == list[j].value
    decreases |list|
  {
    var n := |list| - 1;
    if j < n {
      assert LastWithId(list[..n], j);
      RekeyLastWins(acc, list[..n], j);
    }
  }

  /** A key of `acc` that no entry carries keeps its value. */
  lemma {:induction false} RekeyKeepsOthers<V>(acc: map<string, V>, list: seq<Keyed<V>>, id: string)
    requires id in acc
    requires forall j :: 0 <= j < |list| ==> list[j].id != id
    ensures id in Rekey(acc, list) && Rekey(acc, list)[id] == acc[id]
    decreases |list|
  {
    if list != [] {
      RekeyKeepsOthers(acc, list[..|list| - 1], id);
    }
  }

  /** Re-keying two lists one after the other is re-keying their concatenation. */
  lemma {:induction false} RekeyAppend<V>(acc: map<string, V>, a: seq<Keyed<V>>, b: seq<Keyed<V>>)
    ensures Rekey(Rekey(acc, a), b) == Rekey(acc, a + b)
    decreases |b|
  {
    if b == [] {
      assert a + b == a;
    } else {
      var n := |b| - 1;
      RekeyAppend(acc, a, b[..n]);
      assert (a + b)[..|a + b| - 1] == a + b[..n];
    }
  }

  /** A teacher as `readActiveTeachers` stores it: the page of their threads and their name. */
  datatype TeacherEntry = TeacherEntry(url: string, name: string)

  /** A thread as `readThreadsMeta` stores it: its page and subject. */
  datatype ThreadMeta = ThreadMeta(url: string, subject: string)

  /** `readActiveTeachers`, after the scraping: the teachers keyed by id. */
  function ActiveTeachers(list: seq<Keyed<TeacherEntry>>): (r: map<string, TeacherEntry>)
    ensures r.Keys == Ids(list)
  {
    RekeyKeys(map[], list);
    Rekey(map[], list)
  }

  /** `readThreadsMeta`, after the scraping: `perTeacher` holds each teacher's thread list,
      in the order the teachers are visited; all of them are re-keyed into one map. */
  function ThreadsMeta(perTeacher: seq<seq<Keyed<ThreadMeta>>>): (r: map<string, ThreadMeta>)
    ensures forall j, k :: 0 <= j < |perTeacher| && 0 <= k < |perTeacher[j]| ==> perTeacher[j][k].id in r
  {
    if perTeacher == [] then map[]
    else
      var n := |perTeacher| - 1;
      assert forall j :: 0 <= j < n ==> perTeacher[..n][j] == perTeacher[j];
      Rekey(ThreadsMeta(perTeacher[..n]), perTeacher[n])
  }

  /** All thread lists, one after the other. */
  function Flatten<T>(lists: seq<seq<T>>): (r: seq<T>)
  {
    if lists == [] then []
    else Flatten(lists[..|lists| - 1]) + lists[|lists| - 1]
  }

  /** `readThreadsMeta` keys every thread by id, and a thread listed under several teachers
      keeps the entry of its last listing. */
  lemma {:induction false} ThreadsMetaIsRekey(perTeacher: seq<seq<Keyed<ThreadMeta>>>)
    ensures ThreadsMeta(perTeacher) == Rekey(map[], Flatten(perTeacher))
    decreases |perTeacher|
  {
    if perTeacher != [] {
      var n := |perTeacher| - 1;
      ThreadsMetaIsRekey(perTeacher[..n]);
      RekeyAppend(map[], Flatten(perTeacher[..n]), perTeacher[n]);
    }
  }

  /** The teacher map holds exactly the scraped ids, each with its last entry. */
  lemma ActiveTeachersSpec(list: seq<Keyed<TeacherEntry>>)
    ensures var r := ActiveTeachers(list);
      && r.Keys == Ids(list)
      && forall j :: LastWithId(list, j) ==> r[list[j].id] == list[j].value
  {
    RekeyKeys(map[], list);
    forall j | LastWithId(list, j)
      ensures ActiveTeachers(list)[list[j].id] == list[j].value
    {
      RekeyLastWins(map[], list, j);
    }
  }

  /** The thread map holds exactly the ids of all thread lists, each with its last entry. */
  lemma ThreadsMetaSpec(perTeacher: seq<seq<Keyed<ThreadMeta>>>)
    ensures var all := Flatten(perTeacher);
      var r := ThreadsMeta(perTeacher);
      && r.Keys == Ids(all)
      && forall j :: LastWithId(all, j) ==> r[all[j].id] == all[j].value
  {
    var all := Flatten(perTeacher);
    ThreadsMetaIsRekey(perTeacher);
    RekeyKeys(map[], all);
    forall j | LastWithId(all, j)
      ensures ThreadsMeta(perTeacher)[all[j].id] == all[j].value
    {
      RekeyLastWins(map[], all, j);
    }
  }
}
