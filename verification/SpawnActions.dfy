/** The file actions of posix_spawnp as values: which of them reach the host, in which
    order, and what becomes of the descriptors. */
module SpawnActions {
  import opened Wrappers
  import opened HostSockets

  /** The file actions of posix_spawn_file_actions_t; opening a file makes `file`. */
  datatype Action = Dup2(src: int, dest: int) | CloseFd(fd: int) | OpenFd(fd: int, file: SockId) | Chdir

  function Dup2s(actions: seq<Action>): seq<(int, int)> {
    if actions == [] then []
    else
      var front, last := Dup2s(actions[..|actions| - 1]), actions[|actions| - 1];
      if last.Dup2? then front + [(last.src, last.dest)] else front
  }

  function Reverse<T>(s: seq<T>): seq<T> {
    if s == [] then [] else [s[|s| - 1]] + Reverse(s[..|s| - 1])
  }

  // ---------- what the order of the list means ----------

  lemma {:induction false} ReverseSnoc<T>(s: seq<T>, x: T)
    ensures Reverse(s + [x]) == [x] + Reverse(s)
  {
  }

  lemma {:induction false} ReverseCons<T>(x: T, s: seq<T>)
    ensures Reverse([x] + s) == Reverse(s) + [x]
  {
    if s == [] {
      assert [x] + s == [] + [x];
      ReverseSnoc([], x);
    } else {
      var n := |s| - 1;
      assert ([x] + s)[..n + 1] == [x] + s[..n];
      ReverseCons(x, s[..n]);
    }
  }

  lemma {:induction false} Dup2sCons(a: Action, actions: seq<Action>)
    ensures Dup2s([a] + actions) == (if a.Dup2? then [(a.src, a.dest)] else []) + Dup2s(actions)
  {
    if actions == [] {
      assert [a] + actions == [] + [a];
      assert ([] + [a])[..0] == [];
    } else {
      var n := |actions| - 1;
      assert ([a] + actions)[..n + 1] == [a] + actions[..n];
      Dup2sCons(a, actions[..n]);
    }
  }

  /** The C library adds each action at the head of its list, and posix_spawnp
      reverses the list again: the host carries the dup2 actions out in the order in
      which they were added. */
  lemma {:induction false} HostSeesCallOrder(calls: seq<Action>)
    ensures Reverse(Dup2s(Reverse(calls))) == Dup2s(calls)
  {
    if calls != [] {
      var n := |calls| - 1;
      var last := calls[n];
      HostSeesCallOrder(calls[..n]);
      Dup2sCons(last, Reverse(calls[..n]));
      if last.Dup2? {
        ReverseCons((last.src, last.dest), Dup2s(Reverse(calls[..n])));
      } else {
        assert [] + Dup2s(Reverse(calls[..n])) == Dup2s(Reverse(calls[..n]));
      }
    }
  }

  /** What the file actions mean for the descriptors, in call order.  A dup2 whose
      source is not open changes nothing here; SourcesOpen tells whether there is one. */
  function Perform(fds: map<int, SockId>, calls: seq<Action>): map<int, SockId> {
    if calls == [] then fds
    else
      var t := Perform(fds, calls[..|calls| - 1]);
      match calls[|calls| - 1]
      case Dup2(src, dest) => if src in t then t[dest := t[src]] else t
      case CloseFd(fd) => t - {fd}
      case OpenFd(fd, file) => t[fd := file]
      case Chdir => t
  }

  function KeepDup2s(calls: seq<Action>): seq<Action> {
    if calls == [] then []
    else
      var front, last := KeepDup2s(calls[..|calls| - 1]), calls[|calls| - 1];
      if last.Dup2? then front + [last] else front
  }

  /** The descriptors of a child spawned with `calls`: the list is built by prepending,
      filtered and reversed on the way to the host. */
  function ChildOf(fds: map<int, SockId>, calls: seq<Action>): map<int, SockId> {
    ApplyDup2(fds, Reverse(Dup2s(Reverse(calls))))
  }

  /** The descriptors of the child, exactly: those that the dup2 calls alone, in call
      order, make of the parent's; every other action is lost on the way. */
  lemma {:induction false} ChildFdsExactly(fds: map<int, SockId>, calls: seq<Action>)
    ensures ChildOf(fds, calls) == Perform(fds, KeepDup2s(calls))
  {
    HostSeesCallOrder(calls);
    Dup2sPerform(fds, calls);
  }

  lemma {:induction false} Dup2sPerform(fds: map<int, SockId>, calls: seq<Action>)
    ensures ApplyDup2(fds, Dup2s(calls)) == Perform(fds, KeepDup2s(calls))
  {
    if calls != [] {
      var n := |calls| - 1;
      Dup2sPerform(fds, calls[..n]);
      if calls[n].Dup2? {
        var d, k := Dup2s(calls[..n]), KeepDup2s(calls[..n]);
        assert (d + [(calls[n].src, calls[n].dest)])[..|d|] == d;
        assert (k + [calls[n]])[..|k|] == k;
      }
    }
  }

  /** The request itself keeps every action exactly when all of them are dup2s. */
  lemma RequestKeepsAllExactly(calls: seq<Action>)
    ensures |Reverse(Dup2s(Reverse(calls)))| == |calls| <==> forall i :: 0 <= i < |calls| ==> calls[i].Dup2?
  {
    HostSeesCallOrder(calls);
    CountDup2s(calls);
  }

  lemma {:induction false} CountDup2s(calls: seq<Action>)
    ensures |Dup2s(calls)| <= |calls|
    ensures |Dup2s(calls)| == |calls| <==> forall i :: 0 <= i < |calls| ==> calls[i].Dup2?
  {
    if calls != [] {
      var n := |calls| - 1;
      CountDup2s(calls[..n]);
      assert forall i :: 0 <= i < n ==> calls[..n][i] == calls[i];
    }
  }

  // ---------- when the child has the descriptors that were asked for ----------

  /** An action that makes no difference, or is not lost. */
  predicate Harmless(t: map<int, SockId>, a: Action) {
    match a
    case Dup2(_, _) => true
    case CloseFd(fd) => fd !in t
    case OpenFd(fd, file) => fd in t && t[fd] == file
    case Chdir => true
  }

  /** The child would have what was asked for after every single action. */
  predicate AsAskedAllAlong(fds: map<int, SockId>, calls: seq<Action>) {
    calls == [] || (AsAskedAllAlong(fds, calls[..|calls| - 1]) && ChildOf(fds, calls) == Perform(fds, calls))
  }

  /** Each close is of a descriptor that is not open at that point, and each open of a
      file that is there already. */
  predicate AllHarmless(fds: map<int, SockId>, calls: seq<Action>) {
    calls == [] || (
      var front := calls[..|calls| - 1];
      AllHarmless(fds, front) && Harmless(Perform(fds, front), calls[|calls| - 1]))
  }

  lemma {:induction false} AsAskedAllAlongExactly(fds: map<int, SockId>, calls: seq<Action>)
    ensures AsAskedAllAlong(fds, calls) <==> AllHarmless(fds, calls)
    ensures AsAskedAllAlong(fds, calls) ==> ChildOf(fds, calls) == Perform(fds, calls)
  {
    if calls == [] {
      HostSeesCallOrder(calls);
    } else {
      AsAskedAllAlongExactly(fds, calls[..|calls| - 1]);
      LastIsHarmless(fds, calls);
    }
  }

  lemma LastIsHarmless(fds: map<int, SockId>, calls: seq<Action>)
    requires calls != []
    ensures var n := |calls| - 1;
            ChildOf(fds, calls[..n]) == Perform(fds, calls[..n]) ==>
              (ChildOf(fds, calls) == Perform(fds, calls) <==> Harmless(Perform(fds, calls[..n]), calls[n]))
  {
    var n := |calls| - 1;
    HostSeesCallOrder(calls);
    HostSeesCallOrder(calls[..n]);
    GivenGrows(fds, calls);
    var t := Perform(fds, calls[..n]);
    match calls[n] {
      case Dup2(_, _) =>
      case CloseFd(fd) => assert t - {fd} == t <==> fd !in t;
      case OpenFd(fd, file) => assert t[fd := file] == t <==> fd in t && t[fd] == file;
      case Chdir =>
    }
  }

  lemma GivenGrows(fds: map<int, SockId>, calls: seq<Action>)
    requires calls != []
    ensures var g, last := ApplyDup2(fds, Dup2s(calls[..|calls| - 1])), calls[|calls| - 1];
            ApplyDup2(fds, Dup2s(calls))
              == if last.Dup2? && last.src in g then g[last.dest := g[last.src]] else g
  {
    var d := Dup2s(calls[..|calls| - 1]);
    assert forall p :: (d + [p])[..|d|] == d;
  }

  /** Every dup2 has a source that is open when its turn comes. */
  predicate SourcesOpen(fds: map<int, SockId>, calls: seq<Action>) {
    calls == [] || (
      var front, last := calls[..|calls| - 1], calls[|calls| - 1];
      SourcesOpen(fds, front) && (last.Dup2? ==> last.src in Perform(fds, front)))
  }

  /** The actions can be carried out, and the child has what they make. */
  predicate AsAsked(fds: map<int, SockId>, calls: seq<Action>) {
    SourcesOpen(fds, calls) && ChildOf(fds, calls) == Perform(fds, calls)
  }

  /** What can be said without looking behind the descriptors: which are open as asked,
      which are open in the child, and which of them are not the same in both. */
  datatype Track = Track(asked: set<int>, given: set<int>, apart: set<int>)

  function Follow(t: Track, a: Action): Option<Track> {
    match a
    case Dup2(src, dest) =>
      if src !in t.asked then None
      else Some(Track(t.asked + {dest},
                      if src in t.given then t.given + {dest} else t.given,
                      if src in t.apart then t.apart + {dest} else t.apart - {dest}))
    case CloseFd(fd) =>
      Some(Track(t.asked - {fd}, t.given, if fd in t.given then t.apart + {fd} else t.apart - {fd}))
    case OpenFd(fd, _) => Some(Track(t.asked + {fd}, t.given, t.apart + {fd}))
    case Chdir => Some(t)
  }

  /** A check of the actions against the set of descriptors open in the parent; None
      when a dup2 has no source. */
  function Check(open: set<int>, calls: seq<Action>): Option<Track> {
    if calls == [] then Some(Track(open, open, {}))
    else
      var t := Check(open, calls[..|calls| - 1]);
      if t.None? then None else Follow(t.value, calls[|calls| - 1])
  }

  predicate Differ(a: map<int, SockId>, g: map<int, SockId>, fd: int) {
    (fd in a) != (fd in g) || (fd in a && a[fd] != g[fd])
  }

  /** `t` describes the tables as asked and as given. */
  ghost predicate Describes(t: Track, fds: map<int, SockId>, a: map<int, SockId>, g: map<int, SockId>) {
    && t.asked == a.Keys && t.given == g.Keys
    && (forall fd :: fd in t.apart <==> Differ(a, g, fd))
    && (forall fd :: fd in g ==> g[fd] in fds.Values)
    && (forall fd :: fd in a && fd !in g ==> a[fd] !in fds.Values)
  }

  /** Files that are opened are not among those the parent has open. */
  predicate OpensNewFiles(fds: map<int, SockId>, calls: seq<Action>) {
    forall i :: 0 <= i < |calls| && calls[i].OpenFd? ==> calls[i].file !in fds.Values
  }

  lemma FollowDescribes(t: Track, fds: map<int, SockId>, a: map<int, SockId>, g: map<int, SockId>, c: Action)
    requires Describes(t, fds, a, g) && (c.OpenFd? ==> c.file !in fds.Values)
    requires c.Dup2? ==> c.src in a
    ensures var a' := match c
                      case Dup2(src, dest) => a[dest := a[src]]
                      case CloseFd(fd) => a - {fd}
                      case OpenFd(fd, file) => a[fd := file]
                      case Chdir => a;
            var g' := if c.Dup2? && c.src in g then g[c.dest := g[c.src]] else g;
            Follow(t, c).Some? && Describes(Follow(t, c).value, fds, a', g')
  {
    if c.Dup2? {
      assert c.src in t.apart <==> Differ(a, g, c.src);
    }
  }

  lemma {:induction false} CheckDescribes(fds: map<int, SockId>, calls: seq<Action>)
    requires OpensNewFiles(fds, calls)
    ensures Check(fds.Keys, calls).Some? <==> SourcesOpen(fds, calls)
    ensures SourcesOpen(fds, calls) ==>
              Describes(Check(fds.Keys, calls).value, fds, Perform(fds, calls), ApplyDup2(fds, Dup2s(calls)))
  {
    if calls != [] {
      var n := |calls| - 1;
      CheckDescribes(fds, calls[..n]);
      GivenGrows(fds, calls);
      if SourcesOpen(fds, calls[..n]) && (calls[n].Dup2? ==> calls[n].src in Perform(fds, calls[..n])) {
        FollowDescribes(Check(fds.Keys, calls[..n]).value, fds, Perform(fds, calls[..n]),
                        ApplyDup2(fds, Dup2s(calls[..n])), calls[n]);
      }
    }
  }

  /** Exactly when the child has the descriptors that were asked for: the check finds a
      source for every dup2 and ends with nothing apart.  It looks only at which
      descriptors the parent has open, not at what they stand for, so a caller can
      make it before the call; it accepts a lost action whose effect is undone later. */
  lemma AsAskedExactly(fds: map<int, SockId>, calls: seq<Action>)
    requires OpensNewFiles(fds, calls)
    ensures AsAsked(fds, calls) <==>
            Check(fds.Keys, calls).Some? && Check(fds.Keys, calls).value.apart == {}
  {
    CheckDescribes(fds, calls);
    HostSeesCallOrder(calls);
    if SourcesOpen(fds, calls) {
      SameWhenNothingApart(Perform(fds, calls), ChildOf(fds, calls), Check(fds.Keys, calls).value.apart);
    }
  }

  lemma SameWhenNothingApart(a: map<int, SockId>, g: map<int, SockId>, apart: set<int>)
    requires forall fd :: fd in apart <==> Differ(a, g, fd)
    ensures a == g <==> apart == {}
  {
    if apart == {} {
      assert forall fd {:trigger fd in a} {:trigger fd in g} :: !Differ(a, g, fd);
      assert a == g;
    }
    if a == g {
      assert forall fd :: fd in apart <==> false;
      assert apart == {};
    }
  }

  /** The simplest failure: a close of an open descriptor is lost on the way. */
  lemma CloseIsLost(id: SockId)
    ensures var calls, fds := [CloseFd(0)], map[0 := id];
            ChildOf(fds, calls) != Perform(fds, calls)
  {
    var calls, fds := [CloseFd(0)], map[0 := id];
    LastIsHarmless(fds, calls);
    HostSeesCallOrder([]);
    assert calls[..0] == [];
  }

  /** And so is an open of a new descriptor. */
  lemma OpenIsLost(file: SockId)
    ensures var calls, fds := [OpenFd(0, file)], map[];
            Perform(fds, calls) == map[0 := file] && ChildOf(fds, calls) == map[]
  {
    var calls: seq<Action>, fds: map<int, SockId> := [OpenFd(0, file)], map[];
    ChildFdsExactly(fds, calls);
    assert calls[..0] == [];
  }
}
