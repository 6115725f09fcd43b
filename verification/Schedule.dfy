/** Desired power state of a VM: what the scheduling page stores and how the
    reconciler evaluates it at an instant. */
module Schedule {
  import opened Basics

  // Instants are whole microseconds since the epoch, the resolution of a
  // Python datetime; DATETIME_MAX is datetime.max in UTC.
  const SECOND: int := 1_000_000
  const DATETIME_MAX: int := 253_402_300_799_999_999

  /** Effect of `isoformat(timespec='seconds')` on an instant. */
  function Truncated(t: int): int { t - t % SECOND }

  /** The last whole second not after `t`; the clock ends with the year 9999. */
  lemma WholeSecond(t: int)
    ensures Truncated(t) <= t < Truncated(t) + 1_000_000 && Truncated(t) % 1_000_000 == 0
    ensures DATETIME_MAX + 1 == 253_402_300_800 * 1_000_000
  {
  }

  /** A stored or posted timestamp: text that does not parse (or is absent), a
      datetime without a timezone, or an instant. */
  datatype Stamp = Unparseable | Naive | Utc(at: int)

  datatype RawWindow = RawWindow(start: Stamp, end: Stamp)

  datatype Window = Window(start: int, end: int) {
    predicate Covers(t: int) { start <= t < end }
  }

  predicate RawCovers(w: RawWindow, t: int) {
    w.start.Utc? && w.end.Utc? && w.start.at <= t < w.end.at
  }

  /** A window parses iff it covers some instant, not before `now` when that is
      given, and then covers the same instants; malformed, naive, empty and
      elapsed ones are dropped. */
  function ParseWindow(w: RawWindow, now: Option<int>): (r: Option<Window>)
    ensures r.Some? <==> exists t :: RawCovers(w, t) && (now.Some? ==> now.value <= t)
    ensures r.Some? ==> forall t :: r.value.Covers(t) <==> RawCovers(w, t)
    ensures r.Some? ==> r.value.start < r.value.end && (now.Some? ==> now.value < r.value.end)
  {
    if !w.start.Utc? || !w.end.Utc? then None
    else if w.end.at <= w.start.at || (now.Some? && w.end.at <= now.value) then None
    else
      assert RawCovers(w, if now.Some? && w.start.at < now.value then now.value else w.start.at);
      Some(Window(w.start.at, w.end.at))
  }

  /** `Other` is any mode text the scheduling page would not write. */
  datatype Mode = On | Off | Scheduled | Unmanaged | Other

  datatype Desired = Desired(mode: Mode, windows: seq<RawWindow>)

  /** Some window of `ws` is valid and contains `t`. */
  predicate WindowOpen(ws: seq<RawWindow>, t: int) {
    exists i | 0 <= i < |ws| :: OpenWindow(ws[i], t)
  }

  predicate OpenWindow(w: RawWindow, t: int) {
    var p := ParseWindow(w, None);
    p.Some? && p.value.Covers(t)
  }

  predicate DesiredOn(d: Desired, t: int) {
    d.mode == On || (d.mode == Scheduled && WindowOpen(d.windows, t))
  }

  /** Some window, as it is written in the record, contains `t`. */
  predicate AnyRawCovers(ws: seq<RawWindow>, t: int) { exists i | 0 <= i < |ws| :: RawCovers(ws[i], t) }

  lemma OpenIsCovered(ws: seq<RawWindow>, t: int)
    ensures WindowOpen(ws, t) <==> AnyRawCovers(ws, t)
  {
    forall i | 0 <= i < |ws| ensures OpenWindow(ws[i], t) <==> RawCovers(ws[i], t) { }
  }

  /** What each mode asks for at an instant: 'on' always, a schedule exactly while
      one of its windows covers the instant, everything else never. */
  lemma WantedByMode(d: Desired, t: int)
    ensures d.mode == On ==> DesiredOn(d, t)
    ensures d.mode == Scheduled ==> (DesiredOn(d, t) <==> AnyRawCovers(d.windows, t))
    ensures d.mode in {Off, Unmanaged, Other} ==> !DesiredOn(d, t)
  {
    OpenIsCovered(d.windows, t);
  }

  // ---------------------------------------------------------------------
  // What the schedule page and the command line predict about the next tick
  // ---------------------------------------------------------------------

  datatype Pending = WillStart | WillStop

  function PendingState(d: Option<Desired>, running: bool, grace: bool, now: int): Option<Pending> {
    if d.None? || d.value.mode !in {On, Off, Scheduled} then None
    else if DesiredOn(d.value, now) && !running then Some(WillStart)
    else if !DesiredOn(d.value, now) && (running || grace) then Some(WillStop)
    else None
  }

  // ---------------------------------------------------------------------
  // Windows posted by the scheduling page
  // ---------------------------------------------------------------------

  datatype PostedWindow = NotAnObject | Posted(start: Stamp, end: Stamp)
  datatype PostedWindows = NotAList | WindowList(items: seq<PostedWindow>)

  const MAX_WINDOWS: nat := 50

  /** A posted window that the page accepts at all. */
  predicate Acceptable(w: PostedWindow) {
    w.Posted? && w.start.Utc? && w.end.Utc? && w.start.at < w.end.at
  }

  predicate AcceptableList(ws: PostedWindows) {
    ws.WindowList? && |ws.items| <= MAX_WINDOWS
    && forall i | 0 <= i < |ws.items| :: Acceptable(ws.items[i])
  }

  /** The live windows of an acceptable list, truncated to whole seconds. */
  function LiveTruncated(items: seq<PostedWindow>, now: int): seq<Window>
    requires forall i | 0 <= i < |items| :: Acceptable(items[i])
  {
    if items == [] then []
    else
      var init := items[..|items| - 1];
      var w := items[|items| - 1];
      assert Acceptable(w);
      if w.end.at <= now then LiveTruncated(init, now)
      else LiveTruncated(init, now) + [Window(Truncated(w.start.at), Truncated(w.end.at))]
  }

  function StartOf(w: Window): int { w.start }

  function Sorted(ws: seq<Window>): seq<Window> { SortBy(ws, StartOf) }

  /** `_parse_windows`: one bad window rejects the whole list; elapsed windows
      are dropped; what is kept is truncated to whole seconds and sorted. */
  method ParseWindows(ws: PostedWindows, now: int) returns (r: Option<seq<Window>>)
    ensures r.Some? <==> AcceptableList(ws)
    ensures r.Some? <==>
      (&& ws.WindowList? && |ws.items| <= 50
       && forall p | p in ws.items :: p.Posted? && p.start.Utc? && p.end.Utc? && p.start.at < p.end.at)
    ensures r.Some? ==> r.value == Sorted(LiveTruncated(ws.items, now))
    ensures r.Some? ==> forall w :: w in r.value <==> exists p | p in ws.items :: KeptAs(p, now, w)
    ensures r.Some? ==> forall i, j | 0 <= i < j < |r.value| :: r.value[i].start <= r.value[j].start
  {
    if ws.NotAList? || |ws.items| > MAX_WINDOWS { return None; }
    var out := [];
    for k := 0 to |ws.items|
      invariant forall i | 0 <= i < k :: Acceptable(ws.items[i])
      invariant out == LiveTruncated(ws.items[..k], now)
    {
      var w := ws.items[k];
      if w.NotAnObject? || !w.start.Utc? || !w.end.Utc? || w.end.at <= w.start.at {
        assert !Acceptable(ws.items[k]);
        return None;
      }
      assert ws.items[..k + 1][..k] == ws.items[..k];
      if w.end.at > now {
        out := out + [Window(Truncated(w.start.at), Truncated(w.end.at))];
      }
    }
    assert ws.items[..|ws.items|] == ws.items;
    SortedKeeps(ws.items, now);
    return Some(Sorted(out));
  }

  /** A window as the page stores it. */
  function Stored(w: Window): RawWindow { RawWindow(Utc(w.start), Utc(w.end)) }

  function StoredAll(ws: seq<Window>): (r: seq<RawWindow>)
    ensures |r| == |ws|
    ensures forall i | 0 <= i < |r| :: r[i] == Stored(ws[i])
  {
    seq(|ws|, i requires 0 <= i < |ws| => Stored(ws[i]))
  }

  /** Reading back what the page stored opens exactly the windows it wrote. */
  lemma StoredWindowsOpen(ws: seq<Window>, t: int)
    ensures WindowOpen(StoredAll(ws), t) <==> exists i | 0 <= i < |ws| :: ws[i].Covers(t)
  {
    var raw := StoredAll(ws);
    if i :| 0 <= i < |ws| && ws[i].Covers(t) {
      assert OpenWindow(raw[i], t);
    }
    if i :| 0 <= i < |raw| && OpenWindow(raw[i], t) {
      assert ws[i].Covers(t);
    }
  }

  /** Posted window `w` contains `t`. */
  predicate PostedCovers(w: PostedWindow, t: int) {
    Acceptable(w) && w.start.at <= t < w.end.at
  }

  /** Posted window `p`, still live at `now`, is kept as `w`. */
  predicate KeptAs(p: PostedWindow, now: int, w: Window) {
    Acceptable(p) && now < p.end.at && w == Window(Truncated(p.start.at), Truncated(p.end.at))
  }

  lemma {:induction false} LiveTruncatedHas(items: seq<PostedWindow>, now: int, w: Window)
    requires forall i | 0 <= i < |items| :: Acceptable(items[i])
    ensures w in LiveTruncated(items, now) <==> exists p | p in items :: KeptAs(p, now, w)
  {
    if items != [] {
      var init, last := items[..|items| - 1], items[|items| - 1];
      LiveTruncatedHas(init, now, w);
      assert items == init + [last] && Acceptable(last);
      var kept := Window(Truncated(last.start.at), Truncated(last.end.at));
      assert w in LiveTruncated(items, now) <==> w in LiveTruncated(init, now) || (now < last.end.at && w == kept);
      assert KeptAs(last, now, w) <==> now < last.end.at && w == kept;
      if p :| p in items && KeptAs(p, now, w) { assert p in init || p == last; }
      if p :| p in init && KeptAs(p, now, w) { assert p in items; }
    }
  }

  /** Sorting keeps the windows and puts them in start order. */
  lemma SortedKeeps(items: seq<PostedWindow>, now: int)
    requires forall i | 0 <= i < |items| :: Acceptable(items[i])
    ensures var r := Sorted(LiveTruncated(items, now));
      && (forall w :: w in r <==> exists p | p in items :: KeptAs(p, now, w))
      && (forall i, j | 0 <= i < j < |r| :: r[i].start <= r[j].start)
  {
    var live := LiveTruncated(items, now);
    SortPermutes(live, StartOf);
    SameElements(live, Sorted(live));
    forall w ensures w in live <==> exists p | p in items :: KeptAs(p, now, w) { LiveTruncatedHas(items, now, w); }
    forall i, j | 0 <= i < j < |Sorted(live)| ensures Sorted(live)[i].start <= Sorted(live)[j].start {
      assert StartOf(Sorted(live)[i]) <= StartOf(Sorted(live)[j]);
    }
  }

  /** The instants a posted window is stored for: its own, cut to whole seconds. */
  predicate StoredCovers(p: PostedWindow, t: int) {
    Acceptable(p) && Truncated(p.start.at) <= t < Truncated(p.end.at)
  }

  lemma KeptCovers(items: seq<PostedWindow>, kept: seq<Window>, now: int, t: int)
    requires (forall i | 0 <= i < |items| :: Acceptable(items[i])) && now <= t
    requires forall w :: w in kept <==> w in LiveTruncated(items, now)
    ensures (exists i | 0 <= i < |kept| :: kept[i].Covers(t)) <==> exists p | p in items :: StoredCovers(p, t)
  {
    if p :| p in items && StoredCovers(p, t) {
      var w := Window(Truncated(p.start.at), Truncated(p.end.at));
      assert KeptAs(p, now, w);
      LiveTruncatedHas(items, now, w);
      assert w in kept;
      var i :| 0 <= i < |kept| && kept[i] == w;
      assert kept[i].Covers(t);
    }
    if i :| 0 <= i < |kept| && kept[i].Covers(t) {
      LiveTruncatedHas(items, now, kept[i]);
      assert kept[i] in kept;
      var p :| p in items && KeptAs(p, now, kept[i]);
      assert StoredCovers(p, t);
    }
  }

  /** Filtering, truncating, sorting, storing and reading back: from `now` on the
      schedule is open exactly when a posted window, cut to whole seconds, is. */
  lemma PostedWindowsKept(posted: PostedWindows, now: int, t: int)
    requires AcceptableList(posted) && now <= t
    ensures WindowOpen(StoredAll(Sorted(LiveTruncated(posted.items, now))), t)
       <==> exists p | p in posted.items :: StoredCovers(p, t)
  {
    var live := LiveTruncated(posted.items, now);
    SortPermutes(live, StartOf);
    SameElements(live, Sorted(live));
    StoredWindowsOpen(Sorted(live), t);
    KeptCovers(posted.items, Sorted(live), now, t);
  }

  /** Cutting to whole seconds matters only during the second in which a window
      starts, which it gains, and the one in which it ends, which it loses; not
      at all for windows on whole seconds. */
  lemma TruncationEffect(p: PostedWindow, t: int)
    requires Acceptable(p)
    ensures StoredCovers(p, t) != PostedCovers(p, t) <==>
      || (Truncated(p.start.at) <= t < p.start.at && t < Truncated(p.end.at))
      || (Truncated(p.end.at) <= t < p.end.at && p.start.at <= t)
    ensures p.start.at % SECOND == 0 && p.end.at % SECOND == 0 ==> StoredCovers(p, t) == PostedCovers(p, t)
  {
  }
}
