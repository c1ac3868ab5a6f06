/** The home page's upcoming-workshop strip: of the workshops the content store
    returns, those whose scheduled date lies after the current time, at most six,
    in the order the store query gave them; an empty strip shows the "coming soon"
    panel instead of the card grid.

    The current time `now` and date parsing `parse` are parameters: `parse(text)`
    stands for `new Date(text).getTime()`, `None` for NaN. */
module UpcomingWorkshops {
  import opened Wrappers
  import opened Seqs
  import opened Types
  import opened DateSort
  import Cosmic

  /** How many upcoming workshops the strip shows at most. */
  const MaxShown: nat := 6

  /** The timestamp of a workshop's `scheduled_date`: NaN (`None`) when there is no
      metadata or no date, for the empty date (`new Date('')` is an invalid date)
      and for any date `parse` cannot read. It is also the key the workshop query
      sorts by. */
  function ScheduledAt(w: Workshop, parse: string -> Option<int>): Option<int> {
    match w.metadata
    case None => None
    case Some(m) =>
      match m.scheduledDate
      case None => None
      case Some(d) => if d == "" then None else parse(d)
  }

  function ScheduleKey(parse: string -> Option<int>): Workshop -> Option<int> {
    (w: Workshop) => ScheduledAt(w, parse)
  }

  /** The filter's test: the workshop has a truthy `scheduled_date`, and that date
      is after `now` (a comparison involving NaN is false). */
  predicate IsUpcoming(w: Workshop, parse: string -> Option<int>, now: int) {
    && w.metadata.Some?
    && w.metadata.value.scheduledDate.Some?
    && w.metadata.value.scheduledDate.value != ""
    && var t := parse(w.metadata.value.scheduledDate.value);
       t.Some? && t.value > now
  }

  /** A workshop is upcoming exactly when its scheduled timestamp parses and is
      later than `now`; one whose date does not parse never is. */
  lemma UpcomingMeansLater(w: Workshop, parse: string -> Option<int>, now: int)
    ensures IsUpcoming(w, parse, now) <==> ScheduledAt(w, parse).Some? && ScheduledAt(w, parse).value > now
    ensures ScheduledAt(w, parse).None? ==> !IsUpcoming(w, parse, now)
  {
  }

  /** `workshops.filter(...)`: the upcoming workshops, every one of them, in their
      order in `ws`. */
  function Upcoming(ws: seq<Workshop>, parse: string -> Option<int>, now: int): (r: seq<Workshop>)
    ensures |r| <= |ws|
    ensures forall k :: 0 <= k < |r| ==> IsUpcoming(r[k], parse, now)
  {
    if ws == [] then []
    else (if IsUpcoming(ws[0], parse, now) then [ws[0]] else []) + Upcoming(ws[1..], parse, now)
  }

  /** The filter keeps every upcoming workshop of `ws` and nothing else. */
  lemma {:induction false} UpcomingMembers(ws: seq<Workshop>, parse: string -> Option<int>, now: int)
    ensures forall w :: w in Upcoming(ws, parse, now) <==> w in ws && IsUpcoming(w, parse, now)
  {
    if ws != [] {
      UpcomingMembers(ws[1..], parse, now);
      assert ws == [ws[0]] + ws[1..];
    }
  }

  /** The filter works element by element: filtering a concatenation concatenates
      the filtered parts, so relative order is kept. */
  lemma {:induction false} UpcomingConcat(a: seq<Workshop>, b: seq<Workshop>, parse: string -> Option<int>, now: int)
    ensures Upcoming(a + b, parse, now) == Upcoming(a, parse, now) + Upcoming(b, parse, now)
  {
    if a == [] {
      assert a + b == b;
    } else {
      UpcomingConcat(a[1..], b, parse, now);
      var ab := a + b;
      assert ab[0] == a[0] && ab[1..] == a[1..] + b;
      var head := if IsUpcoming(a[0], parse, now) then [a[0]] else [];
      calc {
        Upcoming(ab, parse, now);
        head + Upcoming(a[1..] + b, parse, now);
        head + (Upcoming(a[1..], parse, now) + Upcoming(b, parse, now));
        { ConcatAssoc(head, Upcoming(a[1..], parse, now), Upcoming(b, parse, now)); }
        head + Upcoming(a[1..], parse, now) + Upcoming(b, parse, now);
      }
    }
  }

  /** The selection: `.slice(0, 6)` of the filtered list. It is a prefix of the
      filtered list, holds at most six workshops, each upcoming, and when it holds
      fewer than six it is the whole filtered list. */
  function Select(ws: seq<Workshop>, parse: string -> Option<int>, now: int): (r: seq<Workshop>)
    ensures |r| <= MaxShown
    ensures |r| <= |Upcoming(ws, parse, now)| && r == Upcoming(ws, parse, now)[..|r|]
    ensures |r| < MaxShown ==> r == Upcoming(ws, parse, now)
    ensures forall k :: 0 <= k < |r| ==> IsUpcoming(r[k], parse, now)
  {
    var u := Upcoming(ws, parse, now);
    u[..if |u| <= MaxShown then |u| else MaxShown]
  }

  /** Filtering a list that is in ascending date order keeps it in that order. */
  lemma {:induction false} UpcomingKeepsOrder(ws: seq<Workshop>, parse: string -> Option<int>, now: int)
    requires AllDated(ws, ScheduleKey(parse)) && Ordered(ws, ScheduleKey(parse), Ascending)
    ensures AllDated(Upcoming(ws, parse, now), ScheduleKey(parse))
    ensures Ordered(Upcoming(ws, parse, now), ScheduleKey(parse), Ascending)
  {
    var key := ScheduleKey(parse);
    if ws != [] {
      var tail := ws[1..];
      OrderedTail(ws, key, Ascending);
      UpcomingKeepsOrder(tail, parse, now);
      var ut := Upcoming(tail, parse, now);
      if IsUpcoming(ws[0], parse, now) {
        HeadBeforeUpcoming(ws, ut, parse, now);
        OrderedCons(ws[0], ut, key, Ascending);
        assert Upcoming(ws, parse, now) == [ws[0]] + ut;
      } else {
        assert Upcoming(ws, parse, now) == ut;
      }
    }
  }

  /** In a list in ascending date order, the first workshop is no later than any
      upcoming workshop after it. */
  lemma HeadBeforeUpcoming(ws: seq<Workshop>, ut: seq<Workshop>, parse: string -> Option<int>, now: int)
    requires ws != [] && AllDated(ws, ScheduleKey(parse)) && Ordered(ws, ScheduleKey(parse), Ascending)
    requires ut == Upcoming(ws[1..], parse, now)
    ensures forall j :: 0 <= j < |ut| ==>
              InOrder(Ascending, ScheduleKey(parse)(ws[0]).value, ScheduleKey(parse)(ut[j]).value)
  {
    var key, tail := ScheduleKey(parse), ws[1..];
    UpcomingMembers(tail, parse, now);
    forall j | 0 <= j < |ut| ensures InOrder(Ascending, key(ws[0]).value, key(ut[j]).value) {
      assert ut[j] in tail;
      var m :| 0 <= m < |tail| && tail[m] == ut[j];
      assert ws[m + 1] == ut[j];
    }
  }

  /** From a list in ascending date order the selection is in ascending order and
      holds the soonest upcoming workshops: any upcoming workshop left out is no
      earlier than every selected one. */
  lemma SelectionIsSoonest(ws: seq<Workshop>, parse: string -> Option<int>, now: int)
    requires AllDated(ws, ScheduleKey(parse)) && Ordered(ws, ScheduleKey(parse), Ascending)
    ensures var sel := Select(ws, parse, now);
            AllDated(sel, ScheduleKey(parse)) && Ordered(sel, ScheduleKey(parse), Ascending)
    ensures var sel := Select(ws, parse, now);
            forall w, k :: w in ws && IsUpcoming(w, parse, now) && w !in sel && 0 <= k < |sel| ==>
              ScheduledAt(sel[k], parse).value <= ScheduledAt(w, parse).value
  {
    var key := ScheduleKey(parse);
    var u := Upcoming(ws, parse, now);
    var sel := Select(ws, parse, now);
    UpcomingKeepsOrder(ws, parse, now);
    forall i, j | 0 <= i < j < |sel| ensures InOrder(Ascending, key(sel[i]).value, key(sel[j]).value) {
      assert sel[i] == u[i] && sel[j] == u[j];
    }
    forall w, k | w in ws && IsUpcoming(w, parse, now) && w !in sel && 0 <= k < |sel|
      ensures ScheduledAt(sel[k], parse).value <= ScheduledAt(w, parse).value
    {
      UpcomingMembers(ws, parse, now);
      assert w in u;
      var j :| 0 <= j < |u| && u[j] == w;
      assert forall i :: 0 <= i < |sel| ==> sel[i] == u[i];
      assert sel[k] == u[k];
      assert InOrder(Ascending, key(u[k]).value, key(u[j]).value);
    }
  }

  /** The strip on the home page, fed by the workshop query: when every fetched
      workshop's date parses, the query sorts them ascending, so the strip shows
      the soonest upcoming workshops of the whole answer, in ascending order. */
  lemma StripShowsSoonestFetched(objects: seq<Workshop>, dateOf: (Workshop, string) -> Option<int>,
                                 parse: string -> Option<int>, now: int)
    requires forall w :: dateOf(w, "scheduled_date") == ScheduledAt(w, parse)
    requires forall k :: 0 <= k < |objects| ==> ScheduledAt(objects[k], parse).Some?
    ensures var out := Cosmic.CollectionOutcome(Cosmic.Workshops, Cosmic.Answered(objects), dateOf);
            out.Returned? && multiset(out.value) == multiset(objects)
    ensures var out := Cosmic.CollectionOutcome(Cosmic.Workshops, Cosmic.Answered(objects), dateOf);
            var sel := Select(out.value, parse, now);
            && AllDated(sel, ScheduleKey(parse)) && Ordered(sel, ScheduleKey(parse), Ascending)
            && forall w, k :: w in objects && IsUpcoming(w, parse, now) && w !in sel && 0 <= k < |sel| ==>
                 ScheduledAt(sel[k], parse).value <= ScheduledAt(w, parse).value
  {
    var sortKey := Cosmic.SortDates(dateOf, "scheduled_date");
    var key := ScheduleKey(parse);
    assert AllDated(objects, sortKey) by {
      forall k | 0 <= k < |objects| ensures sortKey(objects[k]).Some? {
        assert sortKey(objects[k]) == ScheduledAt(objects[k], parse);
      }
    }
    Cosmic.SortedReadsOrderByDate(Cosmic.Workshops, objects, dateOf);
    var out := Cosmic.CollectionOutcome(Cosmic.Workshops, Cosmic.Answered(objects), dateOf).value;
    assert AllDated(out, key) && Ordered(out, key, Ascending) by {
      forall k | 0 <= k < |out| ensures key(out[k]) == sortKey(out[k]) {
        assert key(out[k]) == ScheduledAt(out[k], parse) == dateOf(out[k], "scheduled_date");
      }
    }
    SelectionIsSoonest(out, parse, now);
    forall w | w in objects ensures w in out {
      assert multiset(out)[w] == multiset(objects)[w] > 0;
    }
  }

  /** One grid cell: the card, its slide-in delay, and its registration block
      switched on. */
  datatype Cell = Cell(workshop: Workshop, delayMs: int, showRegistration: bool)

  datatype View = ComingSoon | Grid(cells: seq<Cell>)

  /** The empty selection, and only it, shows the "coming soon" panel; otherwise
      each selected workshop gets a cell in order, the k-th sliding in after
      `k * 100` ms, with registration shown. */
  function Render(sel: seq<Workshop>): (v: View)
    ensures v.ComingSoon? <==> sel == []
    ensures v.Grid? ==> |v.cells| == |sel|
    ensures v.Grid? ==> forall k :: 0 <= k < |sel| ==>
              v.cells[k].workshop == sel[k] && v.cells[k].delayMs == 100 * k && v.cells[k].showRegistration
  {
    if |sel| == 0 then ComingSoon
    else Grid(seq(|sel|, k requires 0 <= k < |sel| => Cell(sel[k], k * 100, true)))
  }

  /** The whole component: the workshop query's outcome (a throw propagates), then
      the selection and its view. */
  function Strip(r: Cosmic.StoreResult<seq<Workshop>>, dateOf: (Workshop, string) -> Option<int>,
                 parse: string -> Option<int>, now: int): (out: Cosmic.Outcome<View>)
    ensures r.Failed? && Cosmic.IsNotFound(r.error) ==> out == Cosmic.Returned(ComingSoon)
    ensures r.Failed? && !Cosmic.IsNotFound(r.error) ==>
              out == Cosmic.Threw("Failed to fetch workshops")
  {
    assert Cosmic.FetchFailure("workshops") == "Failed to fetch workshops";
    match Cosmic.CollectionOutcome(Cosmic.Workshops, r, dateOf)
    case Threw(message) => Cosmic.Threw(message)
    case Returned(ws) => Cosmic.Returned(Render(Select(ws, parse, now)))
  }
}
