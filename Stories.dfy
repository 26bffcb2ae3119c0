/** The stories bar and viewer: `loadStories` groups the story rows (newest
    first) by author and orders the authors by their newest story
    (app.js:645-665); `openStoryViewer`, `isStoryViewedLocal` and
    `nextStory` move `currentView` through one author's stories
    (app.js:755-793). */
module Stories {
  import opened Optional

  /** A story row: its id, author and creation time in milliseconds. */
  datatype Story = Story(id: string, userId: string, createdAt: int)

  /** A public profile as `get_public_profiles` returns it. */
  datatype Profile = Profile(id: string, username: string, avatarUrl: Option<string>)

  /** An entry of `storiesByUser`. */
  datatype Entry = Entry(user: Profile, stories: seq<Story>, allViewed: bool)

  /** `profMap.get(uid) || { id: uid, username: 'User', avatar_url: null }`. */
  function ProfileFor(profiles: map<string, Profile>, uid: string): Profile {
    if uid in profiles then profiles[uid] else Profile(uid, "User", None)
  }

  /** The grouping loop's state: the entries, and the order their keys were
      inserted in (the order a `Map` iterates in). */
  datatype Grouping = Grouping(byUser: map<string, Entry>, keys: seq<string>)

  /** One turn of the grouping loop: the author's entry is created on first
      sight, the story is pushed onto it, and an unviewed story clears
      `allViewed`. */
  function AddStory(g: Grouping, s: Story, viewed: set<string>, profiles: map<string, Profile>): Grouping {
    var isNew := s.userId !in g.byUser;
    var e := if isNew then Entry(ProfileFor(profiles, s.userId), [], true) else g.byUser[s.userId];
    var e' := Entry(e.user, e.stories + [s], e.allViewed && s.id in viewed);
    Grouping(g.byUser[s.userId := e'], if isNew then g.keys + [s.userId] else g.keys)
  }

  /** The grouping of the rows, in the order they came. */
  function GroupAll(stories: seq<Story>, viewed: set<string>, profiles: map<string, Profile>): Grouping {
    if stories == [] then Grouping(map[], [])
    else AddStory(GroupAll(stories[..|stories| - 1], viewed, profiles), stories[|stories| - 1], viewed, profiles)
  }

  /** The loop of `loadStories` that builds `storiesByUser`. */
  method GroupStories(stories: seq<Story>, viewed: set<string>, profiles: map<string, Profile>) returns (g: Grouping)
    ensures g == GroupAll(stories, viewed, profiles)
  {
    var byUser: map<string, Entry> := map[];
    var keys: seq<string> := [];
    var i := 0;
    while i < |stories|
      invariant 0 <= i <= |stories|
      invariant Grouping(byUser, keys) == GroupAll(stories[..i], viewed, profiles)
    {
      assert stories[..i + 1][..i] == stories[..i];
      var s := stories[i];
      var entry: Entry;
      if s.userId in byUser {
        entry := byUser[s.userId];
      } else {
        entry := Entry(ProfileFor(profiles, s.userId), [], true);
        keys := keys + [s.userId];
      }
      entry := entry.(stories := entry.stories + [s]);
      if s.id !in viewed {
        entry := entry.(allViewed := false);
      }
      byUser := byUser[s.userId := entry];
      i := i + 1;
    }
    assert stories[..i] == stories;
    g := Grouping(byUser, keys);
  }

  /** The stories of one author, in the order they came. */
  function StoriesOf(stories: seq<Story>, uid: string): seq<Story> {
    if stories == [] then []
    else StoriesOf(stories[..|stories| - 1], uid) + (if stories[|stories| - 1].userId == uid then [stories[|stories| - 1]] else [])
  }

  predicate AllViewed(ss: seq<Story>, viewed: set<string>) {
    forall i :: 0 <= i < |ss| ==> ss[i].id in viewed
  }

  predicate Distinct(keys: seq<string>) {
    forall i, j :: 0 <= i < j < |keys| ==> keys[i] != keys[j]
  }

  /** The keys are the grouped authors, each once. */
  lemma {:induction false} GroupKeys(stories: seq<Story>, viewed: set<string>, profiles: map<string, Profile>)
    ensures var g := GroupAll(stories, viewed, profiles);
      Distinct(g.keys) && (forall u :: u in g.byUser <==> u in g.keys)
  {
    if stories != [] {
      GroupKeys(stories[..|stories| - 1], viewed, profiles);
    }
  }

  /** Every story lands in exactly its author's entry, in input order; the
      entry carries the author's profile (or the "User" placeholder), and
      `allViewed` holds exactly when every one of the author's stories is
      among the viewed ids. An author has an entry exactly when it wrote one
      of the stories. */
  lemma {:induction false} GroupEntries(stories: seq<Story>, viewed: set<string>, profiles: map<string, Profile>)
    ensures var g := GroupAll(stories, viewed, profiles);
      forall u :: u in g.byUser <==> StoriesOf(stories, u) != []
    ensures var g := GroupAll(stories, viewed, profiles);
      forall u :: u in g.byUser ==>
        g.byUser[u].stories == StoriesOf(stories, u) &&
        g.byUser[u].user == ProfileFor(profiles, u) &&
        (g.byUser[u].allViewed <==> AllViewed(StoriesOf(stories, u), viewed))
  {
    if stories != [] {
      var init := stories[..|stories| - 1];
      var s := stories[|stories| - 1];
      GroupEntries(init, viewed, profiles);
      var g := GroupAll(init, viewed, profiles);
      var g' := GroupAll(stories, viewed, profiles);
      assert stories[..|stories| - 1] == init;
      assert g' == AddStory(g, s, viewed, profiles);
      var ss := StoriesOf(init, s.userId);
      assert StoriesOf(stories, s.userId) == ss + [s];
      assert AllViewed(ss + [s], viewed) <==> AllViewed(ss, viewed) && s.id in viewed by {
        assert forall i :: 0 <= i < |ss| ==> (ss + [s])[i] == ss[i];
        assert (ss + [s])[|ss|] == s;
      }
      forall u | u != s.userId
        ensures StoriesOf(stories, u) == StoriesOf(init, u)
        ensures u in g'.byUser <==> u in g.byUser
        ensures u in g'.byUser ==> g'.byUser[u] == g.byUser[u]
      {
      }
    }
  }

  /** A story in an author's list is one of the rows, by that author. */
  lemma {:induction false} StoriesOfMembers(stories: seq<Story>, uid: string)
    ensures forall k :: 0 <= k < |StoriesOf(stories, uid)| ==>
      StoriesOf(stories, uid)[k].userId == uid && StoriesOf(stories, uid)[k] in stories
  {
    if stories != [] {
      StoriesOfMembers(stories[..|stories| - 1], uid);
      var init := StoriesOf(stories[..|stories| - 1], uid);
      assert forall k :: 0 <= k < |init| ==> StoriesOf(stories, uid)[k] == init[k];
    }
  }

  /** The time `loadStories` sorts an author by: that of the first story in
      the entry (`stories[0]?.created_at || 0`). */
  function FirstTime(e: Entry): int {
    if e.stories == [] then 0 else e.stories[0].createdAt
  }

  /** The sort key of each author. */
  function TimesOf(byUser: map<string, Entry>): map<string, int> {
    map u | u in byUser :: FirstTime(byUser[u])
  }

  function TimeOf(times: map<string, int>, u: string): int {
    if u in times then times[u] else 0
  }

  /** Newest first. */
  predicate SortedByTime(us: seq<string>, times: map<string, int>) {
    forall i, j :: 0 <= i < j < |us| ==> TimeOf(times, us[i]) >= TimeOf(times, us[j])
  }

  /** Puts `u` after every author at least as recent. */
  function InsertByTime(u: string, sorted: seq<string>, times: map<string, int>): seq<string> {
    if sorted == [] then [u]
    else if TimeOf(times, sorted[0]) >= TimeOf(times, u) then [sorted[0]] + InsertByTime(u, sorted[1..], times)
    else [u] + sorted
  }

  /** `sort((a, b) => bt - at)`: a stable sort, newest first. */
  function SortByTime(us: seq<string>, times: map<string, int>): seq<string> {
    if us == [] then []
    else InsertByTime(us[|us| - 1], SortByTime(us[..|us| - 1], times), times)
  }

  /** The authors with a given sort key, in order. */
  function WithTime(us: seq<string>, times: map<string, int>, t: int): seq<string> {
    if us == [] then []
    else (if TimeOf(times, us[0]) == t then [us[0]] else []) + WithTime(us[1..], times, t)
  }

  lemma {:induction false} WithTimeAppend(a: seq<string>, b: seq<string>, times: map<string, int>, t: int)
    ensures WithTime(a + b, times, t) == WithTime(a, times, t) + WithTime(b, times, t)
  {
    if a == [] {
      assert a + b == b;
    } else {
      assert (a + b)[0] == a[0];
      assert (a + b)[1..] == a[1..] + b;
      WithTimeAppend(a[1..], b, times, t);
    }
  }

  lemma {:induction false} WithTimeNone(us: seq<string>, times: map<string, int>, t: int)
    requires forall i :: 0 <= i < |us| ==> TimeOf(times, us[i]) < t
    ensures WithTime(us, times, t) == []
  {
    if us != [] {
      WithTimeNone(us[1..], times, t);
    }
  }

  /** Inserting adds exactly `u`. */
  lemma {:induction false} InsertMultiset(u: string, sorted: seq<string>, times: map<string, int>)
    ensures multiset(InsertByTime(u, sorted, times)) == multiset(sorted) + multiset{u}
  {
    if sorted != [] && TimeOf(times, sorted[0]) >= TimeOf(times, u) {
      InsertMultiset(u, sorted[1..], times);
      assert sorted == [sorted[0]] + sorted[1..];
    }
  }

  /** Inserting into a newest-first order keeps it newest first. */
  lemma {:induction false} InsertSorted(u: string, sorted: seq<string>, times: map<string, int>)
    requires SortedByTime(sorted, times)
    ensures SortedByTime(InsertByTime(u, sorted, times), times)
  {
    if sorted != [] && TimeOf(times, sorted[0]) >= TimeOf(times, u) {
      var tail := sorted[1..];
      SortedTail(sorted, times);
      InsertSorted(u, tail, times);
      assert forall j :: 0 <= j < |tail| ==> TimeOf(times, tail[j]) <= TimeOf(times, sorted[0]) by {
        assert forall j :: 0 <= j < |tail| ==> tail[j] == sorted[j + 1];
      }
      InsertBounded(u, tail, times, TimeOf(times, sorted[0]));
      ConsSorted(sorted[0], InsertByTime(u, tail, times), times);
    } else if sorted != [] {
      ConsSorted(u, sorted, times);
    }
  }

  /** Inserting into authors no more recent than `b` an author no more
      recent than `b` gives authors no more recent than `b`. */
  lemma InsertBounded(u: string, us: seq<string>, times: map<string, int>, b: int)
    requires forall j :: 0 <= j < |us| ==> TimeOf(times, us[j]) <= b
    requires TimeOf(times, u) <= b
    ensures forall j :: 0 <= j < |InsertByTime(u, us, times)| ==> TimeOf(times, InsertByTime(u, us, times)[j]) <= b
  {
    var r := InsertByTime(u, us, times);
    InsertMultiset(u, us, times);
    forall j | 0 <= j < |r| ensures TimeOf(times, r[j]) <= b {
      assert r[j] in multiset(r);
      if r[j] != u {
        assert r[j] in multiset(us);
        var k :| 0 <= k < |us| && us[k] == r[j];
      }
    }
  }

  /** An author at least as recent as everyone in a newest-first order can
      go in front of it. */
  lemma ConsSorted(x: string, us: seq<string>, times: map<string, int>)
    requires SortedByTime(us, times)
    requires forall j :: 0 <= j < |us| ==> TimeOf(times, us[j]) <= TimeOf(times, x)
    ensures SortedByTime([x] + us, times)
  {
    var r := [x] + us;
    forall i, j | 0 <= i < j < |r| ensures TimeOf(times, r[i]) >= TimeOf(times, r[j]) {
      assert r[j] == us[j - 1];
      if i > 0 {
        assert r[i] == us[i - 1];
      }
    }
  }

  /** The rest of a newest-first order is newest first. */
  lemma SortedTail(us: seq<string>, times: map<string, int>)
    requires SortedByTime(us, times) && us != []
    ensures SortedByTime(us[1..], times)
  {
    var tail := us[1..];
    forall i, j | 0 <= i < j < |tail| ensures TimeOf(times, tail[i]) >= TimeOf(times, tail[j]) {
      assert tail[i] == us[i + 1] && tail[j] == us[j + 1];
    }
  }

  /** The authors with key `t` in front of a list. */
  lemma WithTimeCons(x: string, us: seq<string>, times: map<string, int>, t: int)
    ensures WithTime([x] + us, times, t) == (if TimeOf(times, x) == t then [x] else []) + WithTime(us, times, t)
  {
    assert ([x] + us)[0] == x && ([x] + us)[1..] == us;
  }

  /** Inserting puts `u` after the authors with the same key. */
  lemma {:induction false} InsertStable(u: string, sorted: seq<string>, times: map<string, int>, t: int)
    requires SortedByTime(sorted, times)
    ensures WithTime(InsertByTime(u, sorted, times), times, t) ==
      WithTime(sorted, times, t) + (if TimeOf(times, u) == t then [u] else [])
  {
    if sorted == [] {
      WithTimeCons(u, [], times, t);
      assert [u] + [] == [u];
    } else if TimeOf(times, sorted[0]) >= TimeOf(times, u) {
      SortedTail(sorted, times);
      InsertStable(u, sorted[1..], times, t);
      WithTimeCons(sorted[0], InsertByTime(u, sorted[1..], times), times, t);
      WithTimeCons(sorted[0], sorted[1..], times, t);
      assert [sorted[0]] + sorted[1..] == sorted;
    } else {
      FrontStable(u, sorted, times, t);
    }
  }

  /** An author more recent than everyone in a newest-first order goes in
      front, which is still after every author with its own key: there is
      none. */
  lemma FrontStable(u: string, sorted: seq<string>, times: map<string, int>, t: int)
    requires SortedByTime(sorted, times) && sorted != [] && TimeOf(times, sorted[0]) < TimeOf(times, u)
    ensures WithTime([u] + sorted, times, t) == WithTime(sorted, times, t) + (if TimeOf(times, u) == t then [u] else [])
  {
    WithTimeCons(u, sorted, times, t);
    if TimeOf(times, u) == t {
      assert forall i :: 0 <= i < |sorted| ==> TimeOf(times, sorted[i]) <= TimeOf(times, sorted[0]);
      WithTimeNone(sorted, times, t);
    }
  }

  /** The sort orders newest first. */
  lemma {:induction false} SortSorted(us: seq<string>, times: map<string, int>)
    ensures SortedByTime(SortByTime(us, times), times)
  {
    if us != [] {
      SortSorted(us[..|us| - 1], times);
      InsertSorted(us[|us| - 1], SortByTime(us[..|us| - 1], times), times);
    }
  }

  /** The sort keeps every author as often as it was given. */
  lemma {:induction false} SortMultiset(us: seq<string>, times: map<string, int>)
    ensures multiset(SortByTime(us, times)) == multiset(us)
  {
    if us != [] {
      var init := us[..|us| - 1];
      SortMultiset(init, times);
      InsertMultiset(us[|us| - 1], SortByTime(init, times), times);
      assert us == init + [us[|us| - 1]];
    }
  }

  /** The sort keeps authors with equal keys in input order. */
  lemma {:induction false} SortStable(us: seq<string>, times: map<string, int>, t: int)
    ensures WithTime(SortByTime(us, times), times, t) == WithTime(us, times, t)
  {
    if us != [] {
      var init := us[..|us| - 1];
      var u := us[|us| - 1];
      SortStable(init, times, t);
      SortSorted(init, times);
      InsertStable(u, SortByTime(init, times), times, t);
      WithTimeAppend(init, [u], times, t);
      WithTimeCons(u, [], times, t);
      assert [u] + [] == [u];
      assert us == init + [u];
    }
  }

  /** The order is newest first, holds each author exactly as often as
      the input, and keeps authors with equal keys in input order. */
  lemma SortFacts(us: seq<string>, times: map<string, int>)
    ensures SortedByTime(SortByTime(us, times), times)
    ensures multiset(SortByTime(us, times)) == multiset(us)
    ensures forall t :: WithTime(SortByTime(us, times), times, t) == WithTime(us, times, t)
  {
    SortSorted(us, times);
    SortMultiset(us, times);
    forall t ensures WithTime(SortByTime(us, times), times, t) == WithTime(us, times, t) {
      SortStable(us, times, t);
    }
  }

  /** `storyOrder` after grouping: the inserted keys sorted newest first. */
  function StoryOrder(g: Grouping): seq<string> {
    SortByTime(g.keys, TimesOf(g.byUser))
  }

  /** `storyOrder` lists every author with stories exactly once, newest
      first story first; authors whose first stories are equally recent
      keep the order they were first seen in. */
  lemma StoryOrderFacts(stories: seq<Story>, viewed: set<string>, profiles: map<string, Profile>)
    ensures var g := GroupAll(stories, viewed, profiles);
      var order := StoryOrder(g);
      (forall u :: u in order <==> u in g.byUser) &&
      multiset(order) == multiset(g.keys) && Distinct(order) &&
      (forall i, j :: 0 <= i < j < |order| ==>
        FirstTime(g.byUser[order[i]]) >= FirstTime(g.byUser[order[j]])) &&
      (forall t :: WithTime(order, TimesOf(g.byUser), t) == WithTime(g.keys, TimesOf(g.byUser), t))
  {
    var g := GroupAll(stories, viewed, profiles);
    var order := StoryOrder(g);
    GroupKeys(stories, viewed, profiles);
    SortFacts(g.keys, TimesOf(g.byUser));
    forall u ensures u in order <==> u in g.byUser {
      assert u in order <==> u in multiset(order);
      assert u in g.keys <==> u in multiset(g.keys);
    }
    DistinctByMultiset(g.keys, order);
  }

  /** A sequence with the same elements, as often, as a sequence without
      repetition has no repetition either. */
  lemma DistinctByMultiset(a: seq<string>, b: seq<string>)
    requires Distinct(a) && multiset(a) == multiset(b)
    ensures Distinct(b)
  {
    DistinctCounts(a);
    forall i, j | 0 <= i < j < |b| ensures b[i] != b[j] {
      RepeatCounts(b, i, j);
    }
  }

  /** An element at two positions is counted at least twice. */
  lemma RepeatCounts(b: seq<string>, i: nat, j: nat)
    requires i < j < |b|
    ensures b[i] == b[j] ==> multiset(b)[b[i]] >= 2
  {
    assert b == b[..i] + [b[i]] + b[i + 1..j] + [b[j]] + b[j + 1..];
  }

  lemma {:induction false} DistinctCounts(a: seq<string>)
    requires Distinct(a)
    ensures forall x :: multiset(a)[x] <= 1
  {
    if a != [] {
      DistinctCounts(a[1..]);
      assert a == [a[0]] + a[1..];
      assert a[0] !in a[1..];
    }
  }

  /** Newest first, as the stories query orders them. */
  predicate NewestFirst(ss: seq<Story>) {
    forall i, j :: 0 <= i < j < |ss| ==> ss[i].createdAt >= ss[j].createdAt
  }

  lemma {:induction false} StoriesOfNewestFirst(stories: seq<Story>, uid: string)
    requires NewestFirst(stories)
    ensures NewestFirst(StoriesOf(stories, uid))
  {
    if stories != [] {
      var init := stories[..|stories| - 1];
      var last := stories[|stories| - 1];
      var ss := StoriesOf(init, uid);
      StoriesOfNewestFirst(init, uid);
      StoriesOfMembers(init, uid);
      if last.userId == uid {
        forall i, j | 0 <= i < j < |ss| + 1 ensures (ss + [last])[i].createdAt >= (ss + [last])[j].createdAt {
          assert (ss + [last])[i] == ss[i];
          if j == |ss| {
            assert ss[i] in init;
            var k :| 0 <= k < |init| && init[k] == ss[i];
            assert stories[k] == ss[i];
          } else {
            assert (ss + [last])[j] == ss[j];
          }
        }
      }
    }
  }

  /** With the rows newest first, the key an author is sorted by is the
      time of that author's newest story: the bar is ordered by most recent
      story. */
  lemma FirstIsNewest(stories: seq<Story>, viewed: set<string>, profiles: map<string, Profile>, uid: string)
    requires NewestFirst(stories)
    requires uid in GroupAll(stories, viewed, profiles).byUser
    ensures var e := GroupAll(stories, viewed, profiles).byUser[uid];
      e.stories != [] && FirstTime(e) == e.stories[0].createdAt &&
      forall k :: 0 <= k < |e.stories| ==> e.stories[k].createdAt <= FirstTime(e)
  {
    GroupEntries(stories, viewed, profiles);
    StoriesOfNewestFirst(stories, uid);
  }

  /** Whether any of the stories has this id. */
  predicate HasStory(ss: seq<Story>, storyId: string) {
    exists i :: 0 <= i < |ss| && ss[i].id == storyId
  }

  /** `isStoryViewedLocal(storyId)`: the `allViewed` flag of the first entry,
      in the map's order, that holds the story; false if none does. */
  function ViewedLocal(keys: seq<string>, byUser: map<string, Entry>, storyId: string): bool {
    if keys == [] then false
    else if keys[0] in byUser && HasStory(byUser[keys[0]].stories, storyId) then byUser[keys[0]].allViewed
    else ViewedLocal(keys[1..], byUser, storyId)
  }

  /** `entry.stories.findIndex(s => !isStoryViewedLocal(s.id))`, or -1. */
  function FirstUnviewed(ss: seq<Story>, keys: seq<string>, byUser: map<string, Entry>): (k: int)
    ensures -1 <= k < |ss|
    ensures k == -1 <==> forall i :: 0 <= i < |ss| ==> ViewedLocal(keys, byUser, ss[i].id)
    ensures k >= 0 ==>
      !ViewedLocal(keys, byUser, ss[k].id) && forall i :: 0 <= i < k ==> ViewedLocal(keys, byUser, ss[i].id)
  {
    if ss == [] then -1
    else if !ViewedLocal(keys, byUser, ss[0].id) then 0
    else
      var k := FirstUnviewed(ss[1..], keys, byUser);
      if k == -1 then -1 else k + 1
  }

  /** The index `openStoryViewer` starts at: the given start, else the first
      story not viewed, and 0 in place of a negative value. */
  function StartIndex(keys: seq<string>, byUser: map<string, Entry>, uid: string, start: Option<int>): (idx: int)
    requires uid in byUser
    ensures idx >= 0
    ensures start.Some? && start.value >= 0 ==> idx == start.value
    ensures start.Some? && start.value < 0 ==> idx == 0
    ensures start.None? ==>
      var k := FirstUnviewed(byUser[uid].stories, keys, byUser);
      idx == (if k == -1 then 0 else k)
    ensures start.None? ==> idx < |byUser[uid].stories| || byUser[uid].stories == []
  {
    var idx := if start.Some? then start.value else FirstUnviewed(byUser[uid].stories, keys, byUser);
    if idx < 0 then 0 else idx
  }

  /** No story id is held by two different entries. */
  ghost predicate IdsApart(byUser: map<string, Entry>) {
    forall u, v, id :: u in byUser && v in byUser && u != v && HasStory(byUser[u].stories, id) ==>
      !HasStory(byUser[v].stories, id)
  }

  /** When ids are not shared between authors, every story of an author
      gets that author's one `allViewed` flag. */
  lemma {:induction false} ViewedLocalIsEntryFlag(keys: seq<string>, byUser: map<string, Entry>, uid: string, storyId: string)
    requires IdsApart(byUser)
    requires uid in byUser && HasStory(byUser[uid].stories, storyId)
    requires uid in keys
    ensures ViewedLocal(keys, byUser, storyId) == byUser[uid].allViewed
  {
    if keys[0] != uid {
      if keys[0] in byUser {
        assert !HasStory(byUser[keys[0]].stories, storyId);
      }
      ViewedLocalIsEntryFlag(keys[1..], byUser, uid, storyId);
    }
  }

  /** Because every story of an author reads as viewed or unviewed
      together, opening an author without a start index always starts at
      their first story. */
  lemma OpenStartsAtFirst(keys: seq<string>, byUser: map<string, Entry>, uid: string)
    requires IdsApart(byUser)
    requires uid in byUser && uid in keys
    ensures StartIndex(keys, byUser, uid, None) == 0
  {
    var ss := byUser[uid].stories;
    if ss != [] {
      assert HasStory(ss, ss[0].id);
      ViewedLocalIsEntryFlag(keys, byUser, uid, ss[0].id);
      if byUser[uid].allViewed {
        forall i | 0 <= i < |ss| ensures ViewedLocal(keys, byUser, ss[i].id) {
          assert HasStory(ss, ss[i].id);
          ViewedLocalIsEntryFlag(keys, byUser, uid, ss[i].id);
        }
      }
    }
  }

  /** Story ids that are unique among the rows stay apart after grouping. */
  lemma GroupKeepsIdsApart(stories: seq<Story>, viewed: set<string>, profiles: map<string, Profile>)
    requires forall i, j :: 0 <= i < j < |stories| ==> stories[i].id != stories[j].id
    ensures IdsApart(GroupAll(stories, viewed, profiles).byUser)
  {
    var g := GroupAll(stories, viewed, profiles);
    GroupEntries(stories, viewed, profiles);
    forall u, v, id | u in g.byUser && v in g.byUser && u != v && HasStory(g.byUser[u].stories, id)
      ensures !HasStory(g.byUser[v].stories, id)
    {
      AuthorsApart(stories, u, v, id);
    }
  }

  /** With distinct story ids, a story id of one author is not a story id of
      another. */
  lemma AuthorsApart(stories: seq<Story>, u: string, v: string, id: string)
    requires forall i, j :: 0 <= i < j < |stories| ==> stories[i].id != stories[j].id
    requires u != v && HasStory(StoriesOf(stories, u), id)
    ensures !HasStory(StoriesOf(stories, v), id)
  {
    StoriesOfMembers(stories, u);
    StoriesOfMembers(stories, v);
    var su := StoriesOf(stories, u);
    var sv := StoriesOf(stories, v);
    var a :| 0 <= a < |su| && su[a].id == id;
    assert su[a] in stories;
    var i :| 0 <= i < |stories| && stories[i] == su[a];
    forall b | 0 <= b < |sv| ensures sv[b].id != id {
      assert sv[b] in stories;
      var j :| 0 <= j < |stories| && stories[j] == sv[b];
      assert stories[i].userId != stories[j].userId;
    }
  }

  /** The stories state of the client: `storiesByUser` (with the order its
      keys were inserted in), `storyOrder`, `currentView`, and whether the
      viewer dialog is open. */
  class StoryViewer {
    var byUser: map<string, Entry>
    var userKeys: seq<string>
    var storyOrder: seq<string>
    var viewUser: Option<string>
    var viewIndex: int
    var viewerOpen: bool

    constructor()
      ensures Valid()
      ensures byUser == map[] && userKeys == [] && storyOrder == []
      ensures viewUser == None && viewIndex == 0 && !viewerOpen
    {
      byUser := map[];
      userKeys := [];
      storyOrder := [];
      viewUser := None;
      viewIndex := 0;
      viewerOpen := false;
    }

    /** The grouping and order hold what `loadStories` computed: the keys
        are the grouped authors, each once, and no story id is held by two
        authors. */
    ghost predicate Valid()
      reads this
    {
      Distinct(userKeys) && (forall u :: u in byUser <==> u in userKeys) && IdsApart(byUser)
    }

    /** The grouping and ordering part of `loadStories`, given the fetched
        rows, the ids I have viewed and the profiles. `currentView` is left
        as it was. */
    method Load(stories: seq<Story>, viewed: set<string>, profiles: map<string, Profile>)
      requires forall i, j :: 0 <= i < j < |stories| ==> stories[i].id != stories[j].id
      modifies this
      ensures Valid()
      ensures Grouping(byUser, userKeys) == GroupAll(stories, viewed, profiles)
      ensures storyOrder == StoryOrder(Grouping(byUser, userKeys))
      ensures viewUser == old(viewUser) && viewIndex == old(viewIndex) && viewerOpen == old(viewerOpen)
    {
      var g := GroupStories(stories, viewed, profiles);
      GroupKeys(stories, viewed, profiles);
      GroupKeepsIdsApart(stories, viewed, profiles);
      byUser := g.byUser;
      userKeys := g.keys;
      storyOrder := StoryOrder(g);
    }

    /** `isStoryViewedLocal`: the loop over the entries in the map's order. */
    method IsStoryViewedLocal(storyId: string) returns (b: bool)
      ensures b == ViewedLocal(userKeys, byUser, storyId)
    {
      var i := 0;
      while i < |userKeys|
        invariant 0 <= i <= |userKeys|
        invariant ViewedLocal(userKeys, byUser, storyId) == ViewedLocal(userKeys[i..], byUser, storyId)
      {
        var u := userKeys[i];
        assert userKeys[i..][1..] == userKeys[i + 1..];
        if u in byUser {
          var ss := byUser[u].stories;
          var j := 0;
          while j < |ss|
            invariant 0 <= j <= |ss|
            invariant forall k :: 0 <= k < j ==> ss[k].id != storyId
          {
            if ss[j].id == storyId {
              return byUser[u].allViewed;
            }
            j := j + 1;
          }
        }
        i := i + 1;
      }
      return false;
    }

    /** `openStoryViewer(userId, startIndex)`: nothing happens for an author
        without an entry; otherwise the viewer opens on that author at the
        start index. */
    method OpenStoryViewer(uid: string, start: Option<int>)
      requires Valid()
      modifies this
      ensures Valid()
      ensures byUser == old(byUser) && userKeys == old(userKeys) && storyOrder == old(storyOrder)
      ensures uid !in byUser ==>
        viewUser == old(viewUser) && viewIndex == old(viewIndex) && viewerOpen == old(viewerOpen)
      ensures uid in byUser ==>
        viewUser == Some(uid) && viewIndex == StartIndex(userKeys, byUser, uid, start) && viewerOpen
      ensures uid in byUser && start.None? ==> viewIndex == 0
    {
      if uid !in byUser {
        return;
      }
      viewUser := Some(uid);
      viewIndex := StartingIndex(uid, start);
      viewerOpen := true;
      if start.None? {
        OpenStartsAtFirst(userKeys, byUser, uid);
      }
    }

    /** The start index `openStoryViewer` computes: the given one, else the
        first story `isStoryViewedLocal` reports unviewed, clamped at 0. */
    method StartingIndex(uid: string, start: Option<int>) returns (idx: int)
      requires uid in byUser
      ensures idx == StartIndex(userKeys, byUser, uid, start)
    {
      if start.Some? {
        idx := start.value;
      } else {
        var ss := byUser[uid].stories;
        idx := -1;
        var i := 0;
        while i < |ss|
          invariant 0 <= i <= |ss|
          invariant FirstUnviewed(ss, userKeys, byUser) ==
            (if FirstUnviewed(ss[i..], userKeys, byUser) == -1 then -1 else i + FirstUnviewed(ss[i..], userKeys, byUser))
        {
          assert ss[i..][1..] == ss[i + 1..];
          var seen := IsStoryViewedLocal(ss[i].id);
          if !seen {
            idx := i;
            break;
          }
          i := i + 1;
        }
        assert idx == FirstUnviewed(ss, userKeys, byUser);
      }
      if idx < 0 {
        idx := 0;
      }
    }

    /** `nextStory(step)`: the index moves by `step`, but not below 0; moving
        past the last story closes the viewer and leaves the index where it
        was. Without an open author nothing happens. */
    method NextStory(step: int)
      requires Valid()
      modifies this
      ensures Valid()
      ensures byUser == old(byUser) && userKeys == old(userKeys) && storyOrder == old(storyOrder)
      ensures viewUser == old(viewUser)
      ensures viewUser.None? || viewUser.value !in byUser ==>
        viewIndex == old(viewIndex) && viewerOpen == old(viewerOpen)
      ensures viewUser.Some? && viewUser.value in byUser ==>
        var target := if old(viewIndex) + step < 0 then 0 else old(viewIndex) + step;
        if target >= |byUser[viewUser.value].stories| then
          viewIndex == old(viewIndex) && !viewerOpen
        else
          viewIndex == target && viewerOpen == old(viewerOpen) && 0 <= viewIndex < |byUser[viewUser.value].stories|
    {
      if viewUser.None? || viewUser.value !in byUser {
        return;
      }
      var entry := byUser[viewUser.value];
      var idx := viewIndex + step;
      if idx < 0 {
        idx := 0;
      }
      if idx >= |entry.stories| {
        viewerOpen := false;
        return;
      }
      viewIndex := idx;
    }
  }

  /** After a load, opening any author with stories without a start index
      shows their first story. */
  lemma LoadedViewerStartsAtFirst(stories: seq<Story>, viewed: set<string>, profiles: map<string, Profile>, uid: string)
    requires forall i, j :: 0 <= i < j < |stories| ==> stories[i].id != stories[j].id
    requires uid in GroupAll(stories, viewed, profiles).byUser
    ensures var g := GroupAll(stories, viewed, profiles);
      StartIndex(g.keys, g.byUser, uid, None) == 0
  {
    var g := GroupAll(stories, viewed, profiles);
    GroupKeys(stories, viewed, profiles);
    GroupKeepsIdsApart(stories, viewed, profiles);
    OpenStartsAtFirst(g.keys, g.byUser, uid);
  }
}
