/**
 * The line-processing part of `scrape_la_gare_menu`: given the page text of La Gare's lunch
 * page and today's weekday, collect today's dishes and one vegetarian dish, and join them with
 * line feeds. Loading the page is left out: its text is a parameter.
 */
module LaGare {
  import opened Wrappers
  import opened Text
  import opened Weekdays

  /** Words that make a line after today's header a dish. */
  const DishWords: seq<string> := ["Kyckling", "Lax", "Oxbringa", "Rapsgris", "Wallenbergare"]

  /** Weekday names that end the scan of today's dishes. */
  const StopDays: seq<string> := ["måndag", "tisdag", "onsdag", "torsdag", "fredag"]

  /** Words that make a line after the vegetarian marker the vegetarian dish. */
  const VegWords: seq<string> := ["vitlök", "tomat", "persilja"]

  const VegMarker: string := "dagens veg"

  const VegPrefix: string := "Vegetarisk: "

  /** How many lines after the header are scanned for dishes, and after the marker for the vegetarian dish. */
  const DishWindow: nat := 5
  const VegWindow: nat := 7

  /** The header test: today's name occurs in the lower-cased line, and the stripped line is the capitalized name. */
  predicate IsHeader(line: string, today: string) {
    Contains(Lower(line), Lower(today)) && Strip(line) == Capitalize(today)
  }

  /** The scan stops at a stripped line naming a weekday from Monday to Friday, unless it equals the header line. */
  predicate StopsScan(next: string, header: string) {
    ContainsAny(Lower(next), StopDays) && next != header
  }

  /** A stripped line kept as a dish: longer than 15 characters and naming one of the dish words. */
  predicate IsDish(next: string) {
    |next| > 15 && ContainsAny(next, DishWords)
  }

  /** A stripped line kept as the vegetarian dish: longer than 15 characters and naming one of the vegetarian words. */
  predicate IsVegDish(veg: string) {
    |veg| > 15 && ContainsAny(veg, VegWords)
  }

  predicate IsVegMarker(line: string) {
    Contains(Lower(line), VegMarker)
  }

  /** The first header among the first `n` lines, if any. */
  function FirstHeader(lines: seq<string>, today: string, n: nat): (h: Option<nat>)
    requires n <= |lines|
    ensures h.Some? ==> h.value < n
  {
    if n == 0 then None
    else match FirstHeader(lines, today, n - 1)
      case Some(h) => Some(h)
      case None => if IsHeader(lines[n - 1], today) then Some(n - 1) else None
  }

  /** The first vegetarian marker among the first `n` lines, if any. */
  function FirstVegMarker(lines: seq<string>, n: nat): (v: Option<nat>)
    requires n <= |lines|
    ensures v.Some? ==> v.value < n
  {
    if n == 0 then None
    else match FirstVegMarker(lines, n - 1)
      case Some(v) => Some(v)
      case None => if IsVegMarker(lines[n - 1]) then Some(n - 1) else None
  }

  /** End (exclusive) of the dish scan after the header at `h`. */
  function DishEnd(lines: seq<string>, h: nat): nat {
    Min(h + DishWindow + 1, |lines|)
  }

  /** End (exclusive) of the vegetarian scan after the marker at `v`. */
  function VegEnd(lines: seq<string>, v: nat): nat {
    Min(v + VegWindow + 1, |lines|)
  }

  /** Where the dish scan stands: the dishes kept so far, and whether a weekday line ended it. */
  datatype DishScanState = DishScanState(dishes: seq<string>, stopped: bool)

  /**
   * The dish scan after the header line `header` at index `h`, over the stripped lines, once it
   * has looked at the lines before `j`.
   */
  function DishScan(stripped: seq<string>, header: string, h: nat, j: nat): DishScanState
    requires h < j <= |stripped|
    decreases j
  {
    if j == h + 1 then DishScanState([], false)
    else
      var st := DishScan(stripped, header, h, j - 1);
      var next := stripped[j - 1];
      if st.stopped then st
      else if StopsScan(next, header) then DishScanState(st.dishes, true)
      else DishScanState(st.dishes + (if IsDish(next) then [next] else []), false)
  }

  /** The vegetarian scan after the marker at `v`, over the stripped lines, once it has looked at the lines before `j`: the dish found, if any. */
  function VegScan(stripped: seq<string>, v: nat, j: nat): seq<string>
    requires v < j <= |stripped|
    decreases j
  {
    if j == v + 1 then []
    else
      var found := VegScan(stripped, v, j - 1);
      var veg := stripped[j - 1];
      if found != [] then found
      else if IsVegDish(veg) then [VegPrefix + veg]
      else []
  }

  /** The dishes kept after the header at `h`. */
  function DayDishes(lines: seq<string>, h: nat): seq<string>
    requires h < |lines|
  {
    DishScan(StripAll(lines), lines[h], h, DishEnd(lines, h)).dishes
  }

  /** The vegetarian dish kept after the marker at `v`, if any. */
  function VegDish(lines: seq<string>, v: nat): seq<string>
    requires v < |lines|
  {
    VegScan(StripAll(lines), v, VegEnd(lines, v))
  }

  /** Today's dishes: those after the first header, or none without a header. */
  function DayPart(lines: seq<string>, today: string): seq<string> {
    match FirstHeader(lines, today, |lines|)
    case None => []
    case Some(h) => DayDishes(lines, h)
  }

  /** The vegetarian dish after the first marker, if any. */
  function VegPart(lines: seq<string>): seq<string> {
    match FirstVegMarker(lines, |lines|)
    case None => []
    case Some(v) => VegDish(lines, v)
  }

  /** Everything collected, day dishes first. */
  function MenuItems(lines: seq<string>, today: string): seq<string> {
    DayPart(lines, today) + VegPart(lines)
  }

  /** What the extractor returns for the page text and the weekday. */
  function LaGareMenu(pageText: string, weekday: nat): Option<string>
    requires weekday < 7
  {
    var items := MenuItems(Split(pageText, '\n'), WeekdayName(weekday));
    if items == [] then None else Some(Join(items, "\n"))
  }

  /** Once the dish scan has stopped, later lines change nothing. */
  lemma {:induction false} DishScanStopped(stripped: seq<string>, header: string, h: nat, j: nat, k: nat)
    requires h < j <= k <= |stripped|
    requires DishScan(stripped, header, h, j).stopped
    ensures DishScan(stripped, header, h, k) == DishScan(stripped, header, h, j)
    decreases k
  {
    if k > j {
      DishScanStopped(stripped, header, h, j, k - 1);
    }
  }

  /** Once the vegetarian scan has found its dish, later lines change nothing. */
  lemma {:induction false} VegScanFound(stripped: seq<string>, v: nat, j: nat, k: nat)
    requires v < j <= k <= |stripped|
    requires VegScan(stripped, v, j) != []
    ensures VegScan(stripped, v, k) == VegScan(stripped, v, j)
    decreases k
  {
    if k > j {
      VegScanFound(stripped, v, j, k - 1);
    }
  }

  /** Once a header is found, later lines change nothing. */
  lemma {:induction false} FirstHeaderFound(lines: seq<string>, today: string, n: nat, m: nat)
    requires n <= m <= |lines|
    requires FirstHeader(lines, today, n).Some?
    ensures FirstHeader(lines, today, m) == FirstHeader(lines, today, n)
    decreases m
  {
    if m > n {
      FirstHeaderFound(lines, today, n, m - 1);
    }
  }

  /** Once a vegetarian marker is found, later lines change nothing. */
  lemma {:induction false} FirstVegMarkerFound(lines: seq<string>, n: nat, m: nat)
    requires n <= m <= |lines|
    requires FirstVegMarker(lines, n).Some?
    ensures FirstVegMarker(lines, m) == FirstVegMarker(lines, n)
    decreases m
  {
    if m > n {
      FirstVegMarkerFound(lines, n, m - 1);
    }
  }

  /** The scan's stop words are the weekday names from Monday to Friday. */
  lemma StopDaysAreWorkdays()
    ensures StopDays == [WeekdayName(0), WeekdayName(1), WeekdayName(2), WeekdayName(3), WeekdayName(4)]
  {
  }

  /**
   * For a weekday name the containment half of the header test is implied by the other half:
   * a line is a header exactly when its stripped text is the capitalized name.
   */
  lemma HeaderIsExact(line: string, weekday: nat)
    requires weekday < 7
    ensures IsHeader(line, WeekdayName(weekday)) <==> Strip(line) == Capitalize(WeekdayName(weekday))
  {
    var today := WeekdayName(weekday);
    var cap := Capitalize(today);
    if Strip(line) == cap {
      LowerCapitalize(today);
      var a := StripStart(line);
      StripSlice(line);
      LowerSlice(line, a, a + |cap|);
      assert Lower(line)[a..][..|today|] == today;
    }
  }

  /** The first header among the first `n` lines is a header with none before it; without one, no line is a header. */
  lemma FirstHeaderIsFirst(lines: seq<string>, today: string, n: nat)
    requires n <= |lines|
    ensures FirstHeader(lines, today, n).Some? ==>
      var h := FirstHeader(lines, today, n).value;
      IsHeader(lines[h], today) && forall i :: 0 <= i < h ==> !IsHeader(lines[i], today)
    ensures FirstHeader(lines, today, n).None? ==> forall i :: 0 <= i < n ==> !IsHeader(lines[i], today)
  {
    if FirstHeader(lines, today, n).Some? {
      FirstHeaderSome(lines, today, n);
    } else {
      FirstHeaderNone(lines, today, n);
    }
  }

  lemma {:induction false} FirstHeaderSome(lines: seq<string>, today: string, n: nat)
    requires n <= |lines| && FirstHeader(lines, today, n).Some?
    ensures var h := FirstHeader(lines, today, n).value;
      IsHeader(lines[h], today) && forall i :: 0 <= i < h ==> !IsHeader(lines[i], today)
  {
    if FirstHeader(lines, today, n - 1).Some? {
      FirstHeaderSome(lines, today, n - 1);
    } else {
      FirstHeaderNone(lines, today, n - 1);
    }
  }

  lemma {:induction false} FirstHeaderNone(lines: seq<string>, today: string, n: nat)
    requires n <= |lines| && FirstHeader(lines, today, n).None?
    ensures forall i :: 0 <= i < n ==> !IsHeader(lines[i], today)
  {
    if n > 0 {
      FirstHeaderNone(lines, today, n - 1);
    }
  }

  /** The first vegetarian marker among the first `n` lines is a marker with none before it; without one, no line is a marker. */
  lemma {:induction false} FirstVegMarkerIsFirst(lines: seq<string>, n: nat)
    requires n <= |lines|
    ensures FirstVegMarker(lines, n).Some? ==>
      var v := FirstVegMarker(lines, n).value;
      IsVegMarker(lines[v]) && forall i :: 0 <= i < v ==> !IsVegMarker(lines[i])
    ensures FirstVegMarker(lines, n).None? ==> forall i :: 0 <= i < n ==> !IsVegMarker(lines[i])
  {
    if n > 0 {
      FirstVegMarkerIsFirst(lines, n - 1);
    }
  }

  /** The dish scan keeps at most one dish per line it looks at. */
  lemma {:induction false} DishScanCount(stripped: seq<string>, header: string, h: nat, j: nat)
    requires h < j <= |stripped|
    ensures |DishScan(stripped, header, h, j).dishes| <= j - h - 1
    decreases j
  {
    if j > h + 1 {
      DishScanCount(stripped, header, h, j - 1);
    }
  }

  /** No stripped line after index `h`, up to and including index `k`, stops the dish scan under `header`. */
  predicate PassesThrough(stripped: seq<string>, header: string, h: nat, k: nat)
    requires k < |stripped|
  {
    forall m :: h < m <= k ==> !StopsScan(stripped[m], header)
  }

  /** The dish scan is still going exactly when none of the lines it looked at names a weekday and differs from the header. */
  lemma {:induction false} DishScanStopsAtWeekday(stripped: seq<string>, header: string, h: nat, j: nat)
    requires h < j <= |stripped|
    ensures !DishScan(stripped, header, h, j).stopped <==> PassesThrough(stripped, header, h, j - 1)
    decreases j
  {
    if j > h + 1 {
      DishScanStopsAtWeekday(stripped, header, h, j - 1);
    }
  }

  /**
   * The dishes the scan keeps are exactly the lines it looked at that look like dishes and that
   * come before any line that stops it (the stopping line included).
   */
  lemma {:induction false} DishScanKeeps(stripped: seq<string>, header: string, h: nat, j: nat, x: string)
    requires h < j <= |stripped|
    ensures x in DishScan(stripped, header, h, j).dishes <==>
      exists k :: h < k < j && x == stripped[k] && IsDish(x) && PassesThrough(stripped, header, h, k)
    decreases j
  {
    if j > h + 1 {
      DishScanKeeps(stripped, header, h, j - 1, x);
      DishScanStopsAtWeekday(stripped, header, h, j);
    }
  }

  /** The indices of the lines the dish scan has kept, in the order it kept them. */
  function DishIndices(stripped: seq<string>, header: string, h: nat, j: nat): seq<nat>
    requires h < j <= |stripped|
    decreases j
  {
    if j == h + 1 then []
    else
      var at := DishIndices(stripped, header, h, j - 1);
      var next := stripped[j - 1];
      if DishScan(stripped, header, h, j - 1).stopped || StopsScan(next, header) then at
      else at + (if IsDish(next) then [j - 1] else [])
  }

  /** The indices lie after the header and before `j`, one per dish, and point at the dishes. */
  lemma {:induction false} DishIndicesMatch(stripped: seq<string>, header: string, h: nat, j: nat)
    requires h < j <= |stripped|
    ensures |DishIndices(stripped, header, h, j)| == |DishScan(stripped, header, h, j).dishes|
    ensures forall p :: 0 <= p < |DishIndices(stripped, header, h, j)| ==>
      h < DishIndices(stripped, header, h, j)[p] < j
      && DishScan(stripped, header, h, j).dishes[p] == stripped[DishIndices(stripped, header, h, j)[p]]
    decreases j
  {
    if j > h + 1 {
      DishIndicesMatch(stripped, header, h, j - 1);
      var st := DishScan(stripped, header, h, j - 1);
      var at := DishIndices(stripped, header, h, j - 1);
      var next := stripped[j - 1];
      if !st.stopped && !StopsScan(next, header) && IsDish(next) {
        assert DishScan(stripped, header, h, j).dishes == st.dishes + [next];
        assert DishIndices(stripped, header, h, j) == at + [j - 1];
      }
    }
  }

  /** The indices increase strictly. */
  lemma {:induction false} DishIndicesIncrease(stripped: seq<string>, header: string, h: nat, j: nat)
    requires h < j <= |stripped|
    ensures forall p :: 0 <= p < |DishIndices(stripped, header, h, j)| ==> DishIndices(stripped, header, h, j)[p] < j
    ensures forall p, q :: 0 <= p < q < |DishIndices(stripped, header, h, j)| ==>
      DishIndices(stripped, header, h, j)[p] < DishIndices(stripped, header, h, j)[q]
    decreases j
  {
    if j > h + 1 {
      DishIndicesIncrease(stripped, header, h, j - 1);
    }
  }

  /** Every line that is a dish and is reached before a stop line has its index listed. */
  lemma {:induction false} DishIndicesComplete(stripped: seq<string>, header: string, h: nat, j: nat)
    requires h < j <= |stripped|
    ensures forall k :: h < k < j && IsDish(stripped[k]) && PassesThrough(stripped, header, h, k) ==>
      k in DishIndices(stripped, header, h, j)
    decreases j
  {
    if j > h + 1 {
      DishIndicesComplete(stripped, header, h, j - 1);
      var k := j - 1;
      if IsDish(stripped[k]) && PassesThrough(stripped, header, h, k) {
        DishScanStopsAtWeekday(stripped, header, h, k);
        if k > h + 1 {
          assert PassesThrough(stripped, header, h, k - 1);
        }
        assert !DishScan(stripped, header, h, k).stopped;
        assert !StopsScan(stripped[k], header);
        assert DishIndices(stripped, header, h, j) == DishIndices(stripped, header, h, k) + [k];
      }
    }
  }

  /**
   * The dishes are appended in line order, once each: the `p`-th dish is the stripped line at
   * index `at[p]`, the indices increase strictly, and every line that is a dish and is reached
   * before a stop line is among them.
   */
  lemma DishScanInOrder(stripped: seq<string>, header: string, h: nat, j: nat)
    requires h < j <= |stripped|
    ensures var dishes, at := DishScan(stripped, header, h, j).dishes, DishIndices(stripped, header, h, j);
      |at| == |dishes|
      && (forall p :: 0 <= p < |at| ==> h < at[p] < j && dishes[p] == stripped[at[p]])
      && (forall p, q :: 0 <= p < q < |at| ==> at[p] < at[q])
      && (forall k :: h < k < j && IsDish(stripped[k]) && PassesThrough(stripped, header, h, k) ==> k in at)
  {
    DishIndicesMatch(stripped, header, h, j);
    DishIndicesIncrease(stripped, header, h, j);
    DishIndicesComplete(stripped, header, h, j);
  }

  /** At most five dishes are kept, each a stripped line that looks like a dish, from the five lines after the header and before any weekday line. */
  lemma DayDishesBounds(lines: seq<string>, h: nat)
    requires h < |lines|
    ensures |DayDishes(lines, h)| <= DishWindow
    ensures forall x :: x in DayDishes(lines, h) <==>
      exists k :: h < k <= h + DishWindow && k < |lines| && x == StripAll(lines)[k] && IsDish(x)
        && PassesThrough(StripAll(lines), lines[h], h, k)
  {
    var stripped := StripAll(lines);
    DishScanCount(stripped, lines[h], h, DishEnd(lines, h));
    forall x {
      DishScanKeeps(stripped, lines[h], h, DishEnd(lines, h), x);
    }
  }

  /** The indices of today's dishes among the page lines. */
  function DayDishIndices(lines: seq<string>, h: nat): seq<nat>
    requires h < |lines|
  {
    DishIndices(StripAll(lines), lines[h], h, DishEnd(lines, h))
  }

  /**
   * Today's dishes are kept in line order, once each: the `p`-th is the stripped line at index
   * `at[p]`, among the five after the header, the indices increase strictly, and every dish line
   * of those five that comes before a stop line is listed.
   */
  lemma DayDishesInOrder(lines: seq<string>, h: nat)
    requires h < |lines|
    ensures var dishes, at := DayDishes(lines, h), DayDishIndices(lines, h);
      |at| == |dishes|
      && (forall p :: 0 <= p < |at| ==> h < at[p] <= h + DishWindow && at[p] < |lines| && dishes[p] == StripAll(lines)[at[p]])
      && (forall p, q :: 0 <= p < q < |at| ==> at[p] < at[q])
      && (forall k ::
            (h < k <= h + DishWindow && k < |lines| && IsDish(StripAll(lines)[k])
             && PassesThrough(StripAll(lines), lines[h], h, k)) ==> k in at)
  {
    DishScanInOrder(StripAll(lines), lines[h], h, DishEnd(lines, h));
  }

  /**
   * The vegetarian scan finds nothing exactly when no line it looked at qualifies; otherwise it
   * finds the first qualifying line, prefixed.
   */
  lemma {:induction false} VegScanFindsFirst(stripped: seq<string>, v: nat, j: nat)
    requires v < j <= |stripped|
    ensures VegScan(stripped, v, j) == [] <==> forall k :: v < k < j ==> !IsVegDish(stripped[k])
    ensures VegScan(stripped, v, j) != [] ==>
      exists k :: v < k < j && IsVegDish(stripped[k]) && VegScan(stripped, v, j) == [VegPrefix + stripped[k]]
        && forall m :: v < m < k ==> !IsVegDish(stripped[m])
    decreases j
  {
    if j > v + 1 {
      VegScanFindsFirst(stripped, v, j - 1);
    }
  }

  /** At most one vegetarian dish is kept: the first qualifying stripped line among the seven after the marker, prefixed. */
  lemma VegDishBounds(lines: seq<string>, v: nat)
    requires v < |lines|
    ensures |VegDish(lines, v)| <= 1
    ensures VegDish(lines, v) == [] <==> forall k :: v < k <= v + VegWindow && k < |lines| ==> !IsVegDish(StripAll(lines)[k])
    ensures VegDish(lines, v) != [] ==>
      exists k :: v < k <= v + VegWindow && k < |lines| && IsVegDish(StripAll(lines)[k])
        && VegDish(lines, v) == [VegPrefix + StripAll(lines)[k]]
        && forall m :: v < m < k ==> !IsVegDish(StripAll(lines)[m])
  {
    VegScanFindsFirst(StripAll(lines), v, VegEnd(lines, v));
  }

  /** When no line holds a line feed, neither does any collected item. */
  lemma MenuItemsHaveNoBreak(lines: seq<string>, today: string)
    requires forall k :: 0 <= k < |lines| ==> '\n' !in lines[k]
    ensures forall x :: x in MenuItems(lines, today) ==> '\n' !in x
  {
    forall x | x in MenuItems(lines, today)
      ensures '\n' !in x
    {
      if x in DayPart(lines, today) {
        var h := FirstHeader(lines, today, |lines|).value;
        DayDishesBounds(lines, h);
        var k :| h < k <= h + DishWindow && k < |lines| && x == StripAll(lines)[k];
        StripKeepsOut(lines[k], '\n');
      } else {
        var v := FirstVegMarker(lines, |lines|).value;
        VegDishBounds(lines, v);
        var k :| v < k < |lines| && VegDish(lines, v) == [VegPrefix + StripAll(lines)[k]];
        StripKeepsOut(lines[k], '\n');
      }
    }
  }

  /**
   * The extractor returns nothing exactly when nothing was collected; otherwise splitting its
   * text at line feeds gives back the collected items, day dishes first.
   */
  lemma LaGareMenuItems(pageText: string, weekday: nat)
    requires weekday < 7
    ensures var items := MenuItems(Split(pageText, '\n'), WeekdayName(weekday));
      (LaGareMenu(pageText, weekday).None? <==> items == [])
      && (LaGareMenu(pageText, weekday).Some? ==> Split(LaGareMenu(pageText, weekday).value, '\n') == items)
  {
    var lines := Split(pageText, '\n');
    var items := MenuItems(lines, WeekdayName(weekday));
    if items != [] {
      MenuItemsHaveNoBreak(lines, WeekdayName(weekday));
      SplitJoin(items, '\n');
    }
  }

  /**
   * The dish scan after the header at `h`: at most five lines, stopping at another weekday,
   * keeping the stripped lines that look like dishes.
   */
  method ScanDishes(lines: seq<string>, h: nat) returns (dishes: seq<string>)
    requires h < |lines|
    ensures dishes == DayDishes(lines, h)
  {
    var line := lines[h];
    dishes := [];
    var j := h + 1;
    var end := Min(h + 6, |lines|);
    while j < end
      invariant h + 1 <= j <= end
      invariant DishScan(StripAll(lines), line, h, j) == DishScanState(dishes, false)
    {
      var nextLine := Strip(lines[j]);
      assert StripAll(lines)[j] == nextLine;
      if ContainsAny(Lower(nextLine), StopDays) && nextLine != line {
        DishScanStopped(StripAll(lines), line, h, j + 1, end);
        break;
      }
      if |nextLine| > 15 && ContainsAny(nextLine, DishWords) {
        dishes := dishes + [nextLine];
      }
      j := j + 1;
    }
  }

  /**
   * The vegetarian scan after the marker at `v`: at most seven lines, taking the first long
   * line with a vegetarian word; a French pasta line is skipped like any other.
   */
  method ScanVegDish(lines: seq<string>, v: nat) returns (veg: seq<string>)
    requires v < |lines|
    ensures veg == VegDish(lines, v)
  {
    veg := [];
    var j := v + 1;
    var end := Min(v + 8, |lines|);
    while j < end
      invariant v + 1 <= j <= end
      invariant VegScan(StripAll(lines), v, j) == veg == []
    {
      var vegLine := Strip(lines[j]);
      assert StripAll(lines)[j] == vegLine;
      if |vegLine| > 15 {
        if ContainsAny(vegLine, VegWords) {
          veg := veg + [VegPrefix + vegLine];
          VegScanFound(StripAll(lines), v, j + 1, end);
          return;
        } else if StartsWith(vegLine, "Pasta") && (Contains(vegLine, "ail") || Contains(vegLine, "persil")) {
          j := j + 1;
          continue;
        }
      }
      j := j + 1;
    }
  }

  /** The first loop of `scrape_la_gare_menu`: find the first header line and scan the dishes after it. */
  method FindDayDishes(lines: seq<string>, today: string) returns (dishes: seq<string>)
    ensures dishes == DayPart(lines, today)
  {
    dishes := [];
    var i := 0;
    while i < |lines|
      invariant i <= |lines|
      invariant FirstHeader(lines, today, i).None?
      invariant dishes == []
    {
      var line := lines[i];
      if Contains(Lower(line), Lower(today)) && Strip(line) == Capitalize(today) {
        FirstHeaderFound(lines, today, i + 1, |lines|);
        dishes := ScanDishes(lines, i);
        return;
      }
      i := i + 1;
    }
  }

  /** The second loop of `scrape_la_gare_menu`: find the first vegetarian marker and scan for the dish after it. */
  method FindVegDish(lines: seq<string>) returns (veg: seq<string>)
    ensures veg == VegPart(lines)
  {
    veg := [];
    var i := 0;
    while i < |lines|
      invariant i <= |lines|
      invariant FirstVegMarker(lines, i).None?
      invariant veg == []
    {
      if Contains(Lower(lines[i]), VegMarker) {
        FirstVegMarkerFound(lines, i + 1, |lines|);
        veg := ScanVegDish(lines, i);
        return;
      }
      i := i + 1;
    }
  }

  /** `scrape_la_gare_menu` once the page text is loaded: day dishes, then the vegetarian dish, joined by line feeds. */
  method ExtractLaGareMenu(pageText: string, weekday: nat) returns (menu: Option<string>)
    requires weekday < 7
    ensures menu == LaGareMenu(pageText, weekday)
  {
    var lines := Split(pageText, '\n');
    var today := WeekdayName(weekday);
    var menuContent := FindDayDishes(lines, today);
    var veg := FindVegDish(lines);
    menuContent := menuContent + veg;
    if menuContent != [] {
      menu := Some(Join(menuContent, "\n"));
    } else {
      menu := None;
    }
  }
}
