/**
 * The list logic of the `WeatherList` React component: the window of page
 * buttons, the rows shown on the current page, and the id-based rebuilding of
 * the list after an update, a delete, an add or an inline edit. React state is
 * modelled as plain values: every handler returns the new list.
 */
module WeatherList {
  import opened Wrappers

  /** `itemsPerPage`. */
  const ITEMS_PER_PAGE: nat := 7
  /** The most page buttons shown at once. */
  const MAX_BUTTONS: nat := 5

  /** The condition of a row; the server's condition id is not modelled, so the inline edit that replaces it with `{ text }` cannot be seen to drop that id. */
  datatype Condition = Condition(text: string)

  /** A row of the list as the server sends it; only `id` is looked at by the handlers, and the server's `date` is not modelled. */
  datatype Weather = Weather(id: int, city: string, temperature: string, condition: Condition)

  /* ---------------- Pagination ---------------- */

  /** `Math.ceil(n / itemsPerPage)`: the least number of full-or-partial pages holding n rows. */
  function TotalPages(n: nat): (t: nat)
    ensures t * ITEMS_PER_PAGE >= n
    ensures t > 0 ==> (t - 1) * ITEMS_PER_PAGE < n
    ensures t == 0 <==> n == 0
  {
    (n + ITEMS_PER_PAGE - 1) / ITEMS_PER_PAGE
  }

  /** The first and last page button shown. */
  datatype Window = Window(start: int, end: int)

  /** The three clamping cases of `renderPagination`, under the "at most five pages" case. */
  function PageWindow(totalPages: nat, currentPage: int): (w: Window)
    ensures totalPages <= MAX_BUTTONS ==> w.start == 1 && w.end == totalPages
    ensures totalPages > MAX_BUTTONS ==> w.end + 1 - w.start == MAX_BUTTONS
    ensures totalPages > MAX_BUTTONS ==> 1 <= w.start && w.end <= totalPages
    ensures 1 <= currentPage <= totalPages ==> w.start <= currentPage <= w.end
    // near the start the window is pinned to 1..5, near the end to the last five pages
    ensures totalPages > MAX_BUTTONS && currentPage <= 3 ==> w == Window(1, MAX_BUTTONS)
    ensures totalPages > MAX_BUTTONS && currentPage > 3 && currentPage + 2 >= totalPages ==>
      w == Window(totalPages + 1 - MAX_BUTTONS, totalPages)
    // away from both ends the window is centred on the current page
    ensures totalPages > MAX_BUTTONS && 3 < currentPage && currentPage + 2 < totalPages ==>
      w == Window(currentPage - 2, currentPage + 2)
  {
    if totalPages <= MAX_BUTTONS then Window(1, totalPages)
    else if currentPage <= 3 then Window(1, 5)
    else if currentPage + 2 >= totalPages then Window(totalPages - 4, totalPages)
    else Window(currentPage - 2, currentPage + 2)
  }

  /** `Array.from({ length: end + 1 - start }, (_, i) => start + i)`; a negative length counts as 0. */
  function PageNumbers(w: Window): (r: seq<int>)
    ensures |r| == if w.end + 1 - w.start <= 0 then 0 else w.end + 1 - w.start
    ensures forall i :: 0 <= i < |r| ==> r[i] == w.start + i
  {
    var len := w.end + 1 - w.start;
    if len <= 0 then [] else seq(len, i => w.start + i)
  }

  /** The page numbers `renderPagination` shows for a list of `itemCount` rows. */
  function Pages(itemCount: nat, currentPage: int): (pages: seq<int>)
    ensures |pages| <= MAX_BUTTONS
    // few pages: all of them, 1..totalPages (none for an empty list)
    ensures TotalPages(itemCount) <= MAX_BUTTONS ==>
      |pages| == TotalPages(itemCount) && forall i :: 0 <= i < |pages| ==> pages[i] == i + 1
    ensures itemCount == 0 ==> pages == []
    // the list runs from the window's first page to its last
    ensures |pages| > 0 ==> pages[0] == PageWindow(TotalPages(itemCount), currentPage).start
    ensures |pages| > 0 ==> pages[|pages| - 1] == PageWindow(TotalPages(itemCount), currentPage).end
    // many pages: exactly five buttons
    ensures TotalPages(itemCount) > MAX_BUTTONS ==> |pages| == MAX_BUTTONS
    // consecutive and in range
    ensures forall i :: 0 < i < |pages| ==> pages[i] == pages[i - 1] + 1
    ensures forall i :: 0 <= i < |pages| ==> 1 <= pages[i] <= TotalPages(itemCount)
    // the current page, when it is a real page, is among them
    ensures 1 <= currentPage <= TotalPages(itemCount) ==> currentPage in pages
    // away from both ends the current page sits in the middle
    ensures 3 < currentPage && currentPage + 2 < TotalPages(itemCount) ==> pages[2] == currentPage
  {
    var w := PageWindow(TotalPages(itemCount), currentPage);
    var pages := PageNumbers(w);
    assert 1 <= currentPage <= TotalPages(itemCount) ==> pages[currentPage - w.start] == currentPage;
    pages
  }

  /** Where `Array.prototype.slice` starts or stops for index `i` on a list of length `len`. */
  function SliceIndex(i: int, len: nat): nat
  {
    if i < 0 then (if len + i < 0 then 0 else len + i)
    else if i < len then i else len
  }

  /** `s.slice(from, to)`, negative indices counting from the end. */
  function JsSlice<T>(s: seq<T>, from: int, to: int): seq<T>
  {
    var a, b := SliceIndex(from, |s|), SliceIndex(to, |s|);
    if a < b then s[a..b] else []
  }

  /** `currentWeathers`: the rows of the current page. */
  function CurrentWeathers(ws: seq<Weather>, currentPage: int): (r: seq<Weather>)
    ensures |r| <= ITEMS_PER_PAGE
    // from page 1 on: the rows [(p-1)*7, p*7) that exist, in their original order
    ensures currentPage >= 1 ==>
      var first := (currentPage - 1) * ITEMS_PER_PAGE;
      && |r| == (if |ws| <= first then 0 else if |ws| - first < ITEMS_PER_PAGE then |ws| - first else ITEMS_PER_PAGE)
      && forall i :: 0 <= i < |r| ==> r[i] == ws[first + i]
    // a real page is never empty
    ensures 1 <= currentPage <= TotalPages(|ws|) ==> r != []
  {
    JsSlice(ws, (currentPage - 1) * ITEMS_PER_PAGE, currentPage * ITEMS_PER_PAGE)
  }

  /** Row j of the list is shown on page j / 7 + 1, at position j % 7, and that page exists. */
  lemma ItemOnItsPage(ws: seq<Weather>, j: nat)
    requires j < |ws|
    ensures 1 <= j / ITEMS_PER_PAGE + 1 <= TotalPages(|ws|)
    ensures var page := CurrentWeathers(ws, j / ITEMS_PER_PAGE + 1);
      j % ITEMS_PER_PAGE < |page| && page[j % ITEMS_PER_PAGE] == ws[j]
  {
  }

  /* ---------------- Page navigation ---------------- */

  /** A click on "Назад", on "Вперед", or on a numbered page button. */
  datatype Click = Previous | Next | PageButton(page: int)

  /** As written: "Вперед" is enabled unless `currentPage === totalPages`. */
  predicate NextEnabledAsWritten(totalPages: nat, currentPage: int)
  {
    currentPage != totalPages
  }

  /** Corrected: "Вперед" is enabled only while a later page exists. */
  predicate NextEnabled(totalPages: nat, currentPage: int)
  {
    currentPage < totalPages
  }

  /** With an empty list there are no pages, yet "Вперед" is enabled on page 1 and leads to page 2. */
  lemma NextEscapesOnEmptyList()
    ensures TotalPages(0) == 0
    ensures NextEnabledAsWritten(TotalPages(0), 1)
    ensures !NextEnabled(TotalPages(0), 1)
  {
  }

  /** After a delete shrinks 8 rows to 7 while page 2 is shown, "Вперед" as written is still enabled. */
  lemma NextEscapesAfterDelete()
    ensures TotalPages(7) == 1
    ensures NextEnabledAsWritten(TotalPages(7), 2)
    ensures !NextEnabled(TotalPages(7), 2)
  {
  }

  /** On a non-empty list, from a real page, the written and the corrected test agree. */
  lemma NextAsWrittenAgreesOnRealPages(itemCount: nat, currentPage: int)
    requires 1 <= currentPage <= TotalPages(itemCount)
    ensures NextEnabledAsWritten(TotalPages(itemCount), currentPage) == NextEnabled(TotalPages(itemCount), currentPage)
  {
  }

  /** The largest page navigation should reach: the last page, or page 1 of an empty list. */
  function LastPage(itemCount: nat): (p: nat)
    ensures p >= 1 && p >= TotalPages(itemCount)
    ensures p == 1 || p == TotalPages(itemCount)
  {
    if TotalPages(itemCount) == 0 then 1 else TotalPages(itemCount)
  }

  /**
   * `handlePageChange` after a click, or None when the button is disabled or not
   * shown; uses the corrected "Вперед" test. Navigation never leaves 1..LastPage.
   */
  function PageAfter(itemCount: nat, currentPage: int, click: Click): (r: Option<int>)
    ensures 1 <= currentPage <= LastPage(itemCount) && r.Some? ==> 1 <= r.value <= LastPage(itemCount)
    ensures click.Previous? ==> (r.Some? <==> currentPage != 1)
    ensures click.Next? ==> (r.Some? <==> currentPage < TotalPages(itemCount))
    ensures click.PageButton? ==> (r.Some? <==> click.page in Pages(itemCount, currentPage))
    // `handlePageChange` moves to exactly the clicked target
    ensures r.Some? ==> r.value == match click
      case Previous => currentPage - 1
      case Next => currentPage + 1
      case PageButton(p) => p
  {
    match click
    case Previous => if currentPage == 1 then None else Some(currentPage - 1)
    case Next => if NextEnabled(TotalPages(itemCount), currentPage) then Some(currentPage + 1) else None
    case PageButton(p) => if p in Pages(itemCount, currentPage) then Some(p) else None
  }

  /* ---------------- Rebuilding the list ---------------- */

  /** `weathers.filter(weather => weather.id !== id)`. */
  function DeleteById(ws: seq<Weather>, id: int): (r: seq<Weather>)
    ensures |r| <= |ws|
    ensures forall i :: 0 <= i < |r| ==> r[i].id != id
    ensures forall w: Weather :: w.id != id ==> multiset(r)[w] == multiset(ws)[w]
  {
    if ws == [] then []
    else
      var rest := DeleteById(ws[1..], id);
      assert ws == [ws[0]] + ws[1..];
      if ws[0].id != id then [ws[0]] + rest else rest
  }

  /** Filtering keeps the order: it works piece by piece on a concatenation. */
  lemma {:induction false} DeleteByIdDistributes(a: seq<Weather>, b: seq<Weather>, id: int)
    ensures DeleteById(a + b, id) == DeleteById(a, id) + DeleteById(b, id)
  {
    if a == [] {
      assert a + b == b;
    } else {
      assert (a + b)[0] == a[0];
      assert (a + b)[1..] == a[1..] + b;
      DeleteByIdDistributes(a[1..], b, id);
      if a[0].id != id {
        calc {
          DeleteById(a + b, id);
          [a[0]] + DeleteById(a[1..] + b, id);
          [a[0]] + (DeleteById(a[1..], id) + DeleteById(b, id));
          ([a[0]] + DeleteById(a[1..], id)) + DeleteById(b, id);
        }
      } else {
        assert DeleteById(a + b, id) == DeleteById(a[1..] + b, id);
      }
    }
  }

  /** Deleting an id no row carries leaves the list unchanged. */
  lemma {:induction false} DeleteAbsentId(ws: seq<Weather>, id: int)
    requires forall i :: 0 <= i < |ws| ==> ws[i].id != id
    ensures DeleteById(ws, id) == ws
  {
    if ws != [] {
      DeleteAbsentId(ws[1..], id);
    }
  }

  /** `weathers.map(w => w.id === id ? f(w) : w)`. */
  function MapById(ws: seq<Weather>, id: int, f: Weather -> Weather): (r: seq<Weather>)
    ensures |r| == |ws|
    ensures forall i :: 0 <= i < |ws| ==> r[i] == if ws[i].id == id then f(ws[i]) else ws[i]
  {
    if ws == [] then []
    else [if ws[0].id == id then f(ws[0]) else ws[0]] + MapById(ws[1..], id, f)
  }

  /** `updateWeather`: every row with the id becomes the server's answer; the rest stay, in place. */
  function UpdateWeather(ws: seq<Weather>, id: int, saved: Weather): (r: seq<Weather>)
    ensures |r| == |ws|
    ensures forall i :: 0 <= i < |ws| && ws[i].id == id ==> r[i] == saved
    ensures forall i :: 0 <= i < |ws| && ws[i].id != id ==> r[i] == ws[i]
  {
    MapById(ws, id, _ => saved)
  }

  /** `addWeather`: the server's answer goes at the end. */
  function AddWeather(ws: seq<Weather>, saved: Weather): (r: seq<Weather>)
    ensures |r| == |ws| + 1
    ensures r[..|ws|] == ws
    ensures r[|ws|] == saved
  {
    ws + [saved]
  }

  /** Adding a row with a fresh id and then deleting that id gives the list back. */
  lemma AddThenDelete(ws: seq<Weather>, saved: Weather)
    requires forall i :: 0 <= i < |ws| ==> ws[i].id != saved.id
    ensures |AddWeather(ws, saved)| == |ws| + 1
    ensures DeleteById(AddWeather(ws, saved), saved.id) == ws
  {
    DeleteByIdDistributes(ws, [saved], saved.id);
    DeleteAbsentId(ws, saved.id);
  }

  /** The added row is the last row of the last page. */
  lemma AddedWeatherOnLastPage(ws: seq<Weather>, saved: Weather)
    ensures var r := AddWeather(ws, saved);
      var page := CurrentWeathers(r, TotalPages(|r|));
      page != [] && page[|page| - 1] == saved
  {
  }

  /** An inline edit of one field of a row (the city, temperature and condition inputs). */
  datatype Edit = SetCity(city: string) | SetTemperature(temperature: string) | SetConditionText(text: string)

  /** `{ ...w, field: value }`; the condition input replaces the whole condition object. */
  function Edited(w: Weather, e: Edit): (r: Weather)
    ensures r.id == w.id
    ensures e.SetCity? ==> r.city == e.city && r.temperature == w.temperature && r.condition == w.condition
    ensures e.SetTemperature? ==> r.temperature == e.temperature && r.city == w.city && r.condition == w.condition
    ensures e.SetConditionText? ==> r.condition == Condition(e.text) && r.city == w.city && r.temperature == w.temperature
  {
    match e
    case SetCity(c) => w.(city := c)
    case SetTemperature(t) => w.(temperature := t)
    case SetConditionText(t) => w.(condition := Condition(t))
  }

  /** An inline edit of the row with the id; rows keep their ids and positions. */
  function EditWeather(ws: seq<Weather>, id: int, e: Edit): (r: seq<Weather>)
    ensures |r| == |ws|
    ensures forall i :: 0 <= i < |ws| ==> r[i].id == ws[i].id
    ensures forall i :: 0 <= i < |ws| && ws[i].id != id ==> r[i] == ws[i]
    ensures forall i :: 0 <= i < |ws| && ws[i].id == id ==> r[i] == Edited(ws[i], e)
  {
    MapById(ws, id, w => Edited(w, e))
  }
}
