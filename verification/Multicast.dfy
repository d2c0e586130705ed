/** The difference between two source filters of a multicast group, as the report that tells it to
    the routers (section 5.1 of RFC 3376). */
module Multicast {
  datatype Mode = Exclude | Include
  datatype Event = DeleteGroup | CreateGroup | UpdateGroup | QueryReceived
  datatype RecordType = ToInclude | ToExclude | AllowNew | BlockOld
  datatype Result = Report | NoReport

  /** A filter: what it lets through is decided by its mode and its sources. */
  datatype Filter = Filter(mode: Mode, sources: set<nat>)

  predicate Receives(f: Filter, source: nat) {
    match f.mode
    case Include => source in f.sources
    case Exclude => source !in f.sources
  }

  /** What a router lets through once it has heard a record. */
  predicate ReceivesAfter(before: Filter, record: RecordType, listed: set<nat>, source: nat) {
    match record
    case ToInclude => source in listed
    case ToExclude => source !in listed
    case AllowNew => Receives(before, source) || source in listed
    case BlockOld => Receives(before, source) && source !in listed
  }

  /** The record that is reported, and its sources; none when there is nothing to tell. */
  datatype Announcement = Told(record: RecordType, listed: set<nat>) | Untold

  function Difference(a: Filter, b: Filter, event: Event): Announcement {
    match (a.mode, b.mode)
    case (Include, Exclude) => Told(ToExclude, b.sources)
    case (Exclude, Include) => Told(ToInclude, b.sources)
    case (Include, Include) =>
      if event == DeleteGroup then Told(ToInclude, b.sources)
      else if b.sources - a.sources != {} then
        Told(if event == CreateGroup then ToInclude else AllowNew, b.sources - a.sources)
      else if a.sources - b.sources != {} then Told(BlockOld, a.sources - b.sources)
      else Untold
    case (Exclude, Exclude) =>
      if b.sources - a.sources != {} then Told(BlockOld, b.sources - a.sources)
      else if a.sources - b.sources != {} then Told(AllowNew, a.sources - b.sources)
      else Untold
  }

  /** The report turns what was let through into what is let through now. */
  ghost predicate Conveys(a: Filter, b: Filter, r: Announcement) {
    forall source ::
      (match r
       case Told(record, listed) => ReceivesAfter(a, record, listed, source)
       case Untold => Receives(a, source)) <==> Receives(b, source)
  }

  /** Exactly when the report of an update tells the whole change: the modes differ, or one list
      of sources contains the other. */
  lemma UpdateConveysIff(a: Filter, b: Filter)
    ensures Conveys(a, b, Difference(a, b, UpdateGroup)) <==>
            a.mode != b.mode || a.sources <= b.sources || b.sources <= a.sources
  {
    var r := Difference(a, b, UpdateGroup);
    if a.mode == b.mode && !(a.sources <= b.sources) && !(b.sources <= a.sources) {
      var gone :| gone in a.sources && gone !in b.sources;
      var gained :| gained in b.sources && gained !in a.sources;
      assert gained in b.sources - a.sources;
      assert !(ReceivesAfter(a, r.record, r.listed, gone) <==> Receives(b, gone));
    }
  }

  /** From including source 1 to including source 2: the report lets source 2 in and leaves
      source 1, which is wanted no more. */
  lemma UntoldLossExample()
    ensures var a, b := Filter(Include, {1}), Filter(Include, {2});
            && Difference(a, b, UpdateGroup) == Told(AllowNew, {2}) && !Conveys(a, b, Told(AllowNew, {2}))
            && ReceivesAfter(a, AllowNew, {2}, 1) && !Receives(b, 1)
  {
    var a, b := Filter(Include, {1}), Filter(Include, {2});
    assert 2 in b.sources - a.sources;
    assert b.sources - a.sources == {2};
    UpdateConveysIff(a, b);
    assert 1 in a.sources && 1 !in b.sources && 2 in b.sources && 2 !in a.sources;
  }

  /** Joining: nothing was let through before, so the report tells the new filter. */
  lemma CreateConveys(b: Filter)
    ensures Conveys(Filter(Include, {}), b, Difference(Filter(Include, {}), b, CreateGroup))
  {
    assert b.sources - {} == b.sources;
  }

  /** Leaving: whatever was let through, nothing is any more. */
  lemma DeleteConveys(a: Filter)
    ensures Conveys(a, Filter(Include, {}), Difference(a, Filter(Include, {}), DeleteGroup))
  {
  }

  /** In an unchanged mode nothing is reported exactly when the lists are equal. */
  lemma UntoldIffEqual(a: Filter, b: Filter, event: Event)
    requires a.mode == b.mode && (event == UpdateGroup || event == CreateGroup)
    ensures Difference(a, b, event) == Untold <==> a.sources == b.sources
  {
  }

  // ---------- On the trees ----------

  lemma StepDeleted(start: set<nat>, gone: set<nat>, todo: set<nat>, s: nat)
    requires s in todo && todo <= gone
    ensures start - (gone - (todo - {s})) == (start - (gone - todo)) - {s}
    ensures s !in start - (gone - todo) ==> (start - (gone - todo)) - {s} == start - (gone - todo)
  {
  }

  /** The filter parameters; the trees of sources are sets here. */
  class Differ {
    var allow: set<nat>
    var block: set<nat>
    var listsAllow: bool
    var sources: nat
    var record: RecordType

    constructor ()
      ensures sources == 0
    {
      allow, block, listsAllow, sources, record := {}, {}, true, 0, ToInclude;
    }

    function Listed(): set<nat>
      reads this
    {
      if listsAllow then allow else block
    }

    /** `pico_mcast_src_filtering_cleanup`. */
    method Cleanup()
      modifies this`allow, this`block
      ensures allow == {} && block == {}
    {
      while allow != {}
        decreases |allow|
      {
        var s :| s in allow;
        allow := allow - {s};
      }
      while block != {}
        invariant allow == {}
        decreases |block|
      {
        var s :| s in block;
        block := block - {s};
      }
    }

    method Put(s: nat)
      requires s !in Listed() && sources == |Listed()|
      modifies this`allow, this`block, this`sources
      ensures Listed() == old(Listed()) + {s} && sources == |Listed()|
      ensures if listsAllow then block == old(block) else allow == old(allow)
    {
      if listsAllow {
        allow := allow + {s};
      } else {
        block := block + {s};
      }
      sources := sources + 1;
    }

    method Remove(s: nat)
      requires s in Listed() && sources == |Listed()|
      modifies this`allow, this`block, this`sources
      ensures Listed() == old(Listed()) - {s} && sources == |Listed()|
      ensures if listsAllow then block == old(block) else allow == old(allow)
    {
      if listsAllow {
        allow := allow - {s};
      } else {
        block := block - {s};
      }
      sources := sources - 1;
    }

    /** Inserts all of `from` into the tree that is listed, counting. */
    method InsertAll(from: set<nat>)
      requires Listed() == {} && sources == 0
      modifies this`allow, this`block, this`sources
      ensures Listed() == from && sources == |from|
      ensures if listsAllow then block == old(block) else allow == old(allow)
    {
      var todo := from;
      while todo != {}
        invariant todo <= from && Listed() == from - todo && sources == |Listed()|
        invariant if listsAllow then block == old(block) else allow == old(allow)
        decreases |todo|
      {
        var s :| s in todo;
        assert from - (todo - {s}) == (from - todo) + {s};
        Put(s);
        todo := todo - {s};
      }
    }

    /** Deletes all of `gone` that are in the tree that is listed, counting. */
    method DeleteAll(gone: set<nat>)
      requires sources == |Listed()|
      modifies this`allow, this`block, this`sources
      ensures Listed() == old(Listed()) - gone && sources == |Listed()|
      ensures if listsAllow then block == old(block) else allow == old(allow)
    {
      var todo := gone;
      while todo != {}
        invariant todo <= gone && Listed() == old(Listed()) - (gone - todo) && sources == |Listed()|
        invariant if listsAllow then block == old(block) else allow == old(allow)
        decreases |todo|
      {
        var s :| s in todo;
        StepDeleted(old(Listed()), gone, todo, s);
        if s in Listed() {
          Remove(s);
        }
        todo := todo - {s};
      }
    }

    ghost predicate Shows(r: Announcement)
      reads this
    {
      && sources == |Listed()|
      && match r
         case Told(t, listed) => record == t && Listed() == listed
         case Untold => Listed() == {}
    }

    /** `pico_mcast_src_filtering_inc_inc`; there is no new list when the group is deleted. */
    method IncInc(event: Event, a: set<nat>, b: set<nat>) returns (res: Result)
      requires allow == {} && block == {} && sources == 0
      modifies this
      ensures var r := Difference(Filter(Include, a), Filter(Include, b), event);
              Shows(r) && (res == NoReport <==> r == Untold)
    {
      if event == DeleteGroup {
        record, listsAllow := ToInclude, true;
        InsertAll(b);
        return Report;
      }
      record := if event == CreateGroup then ToInclude else AllowNew;
      listsAllow := true;
      InsertAll(b);
      DeleteAll(a);
      if allow != {} {
        return Report;
      }
      record, listsAllow := BlockOld, false;
      InsertAll(a);
      DeleteAll(b);
      res := if block != {} then Report else NoReport;
    }

    /** `pico_mcast_src_filtering_excl_excl`. */
    method ExclExcl(event: Event, a: set<nat>, b: set<nat>) returns (res: Result)
      requires allow == {} && block == {} && sources == 0
      modifies this
      ensures var r := Difference(Filter(Exclude, a), Filter(Exclude, b), event);
              Shows(r) && (res == NoReport <==> r == Untold)
    {
      record, listsAllow := BlockOld, false;
      InsertAll(b);
      DeleteAll(a);
      if block != {} {
        return Report;
      }
      record, listsAllow := AllowNew, true;
      InsertAll(a);
      DeleteAll(b);
      res := if allow != {} then Report else NoReport;
    }

    /** `pico_mcast_src_filtering_inc_excl` and `pico_mcast_src_filtering_excl_inc`. */
    method Changed(toInclude: bool, b: set<nat>)
      requires allow == {} && block == {} && sources == 0
      modifies this
      ensures Shows(Told(if toInclude then ToInclude else ToExclude, b))
    {
      record := if toInclude then ToInclude else ToExclude;
      listsAllow := toInclude;
      InsertAll(b);
    }

    /** `pico_mcast_generate_filter`: deleting a group means changing to the empty including
        filter, and the answer to a query leaves everything as it is. */
    method GenerateFilter(event: Event, a: Filter, b: Filter) returns (res: Result)
      requires sources == 0
      modifies this
      ensures event == QueryReceived ==>
                res == Report && allow == old(allow) && block == old(block) && sources == 0
      ensures event != QueryReceived ==>
                var r := Difference(a, if event == DeleteGroup then Filter(Include, {}) else b, event);
                Shows(r) && (res == NoReport <==> r == Untold)
    {
      if event == QueryReceived {
        return Report;
      }
      var now := if event == DeleteGroup then Filter(Include, {}) else b;
      Cleanup();
      match (a.mode, now.mode)
      case (Exclude, Exclude) =>
        res := ExclExcl(event, a.sources, now.sources);
      case (Exclude, Include) =>
        Changed(true, now.sources);
        res := Report;
      case (Include, Exclude) =>
        Changed(false, now.sources);
        res := Report;
      case (Include, Include) =>
        res := IncInc(event, a.sources, now.sources);
    }
  }
}
