# Weather service: bounded cache and list pagination, modelled in Dafny

This project models the two pieces of the weather service that carry real logic.

1. The in-memory cache `CacheComponent`. The repository holds three copies of it:
   - `BackWeather/src/main/java/com/app/weather/component/CacheComponent.java`
   - `que/src/main/java/com/app/weather/component/CacheComponent.java`
   - `src/main/java/com/app/weather/component/CacheComponent.java`

   Each copy keeps one `HashMap<String, Object>` and offers `put`, `get` and `remove`. A `put` that leaves more than 100 entries removes the first key the map's iterator returns. The copies differ only in how the constant is named (`maxSize` or `MAX_SIZE`) and in the two logging calls of the BackWeather copy, so one class, `Cache.CacheComponent`, models all three. The line numbers map as follows:

   | operation | BackWeather | que | src |
   |---|---|---|---|
   | `put` | 17-25 | 13-19 | 12-19 |
   | `get` | 27-29 | 21-23 | 21-23 |
   | `remove` | 31-34 | 25-27 | 25-27 |

2. The list logic of the front end's `WeatherFront/src/WeatherList.jsx`, in module `WeatherList`:
   - the page count and the window of at most five page buttons in `renderPagination`;
   - the "previous" and "next" buttons;
   - the rows of the current page (`currentWeathers`);
   - the way `updateWeather`, `deleteWeather`, `addWeather` and the inline edit inputs rebuild the list by id.

## Design

- `wrappers.dfy` holds `Option`. It stands in for Java's `null` answer from `get`.
- `cache.dfy`, module `Cache`:
  - Pure specification functions: `PutWith` (put, given the key the iterator returns first), `Removed` and `Lookup`.
  - The class `CacheComponent`. Its field `hashMap` is updated in place by `Put` and `Remove`, and `Valid()` is the capacity bound.
  - `Put` picks the evicted key with `:|` over the keys present after the insertion. Java's `HashMap` iteration order is unspecified, so the model assumes neither LRU nor FIFO, and the victim may be the key just inserted.
  - `Step` and `Run` describe any sequence of `put`/`get`/`remove` calls on a freshly built cache. The lemmas about whole runs are stated over these.
- `weather_list.dfy`, module `WeatherList`:
  - Pure functions over `nat`/`int` and `seq`. React's state setters replace whole values, so each handler is modelled as a function from the old list to the new one.
  - `JsSlice` follows JavaScript's `Array.prototype.slice`, including its negative indices.
  - `PageNumbers` follows `Array.from` with a length, where a negative length counts as zero.

## Model

| member | source | states |
|---|---|---|
| `Cache.PutWith` | src/main/java/com/app/weather/component/CacheComponent.java:12-19 | put keeps size ≤ 100 if it was ≤ 100; overwriting a present key keeps the key set and evicts nothing; a new key into a full cache leaves exactly 100; an overflowing put removes exactly one key, present after the insertion; without overflow nothing is evicted and the map is exactly the old one with `key` set to the value, so `get(key)` returns it; no key other than `key` and the victim changes |
| `Cache.Removed` | src/main/java/com/app/weather/component/CacheComponent.java:25-27 | afterwards `key` is absent; every other key keeps its entry; removing a missing key is a no-op; size drops by one exactly when the key was present |
| `Cache.CacheComponent.constructor` | BackWeather/src/main/java/com/app/weather/component/CacheComponent.java:10-15 | a new cache is empty and within capacity |
| `Cache.CacheComponent.Put` | que/src/main/java/com/app/weather/component/CacheComponent.java:13-19 | the new map is the old one after insert-then-evict-if-over-100, for some key of the map after insertion as victim; the capacity bound is kept |
| `Cache.CacheComponent.Get` | BackWeather/src/main/java/com/app/weather/component/CacheComponent.java:27-29 | returns the stored value when the key is present, absent (Java `null`) exactly when it is missing; changes nothing |
| `Cache.CacheComponent.Remove` | que/src/main/java/com/app/weather/component/CacheComponent.java:25-27 | the new map is `Removed(old map, key)`; the capacity bound is kept |
| `Cache.RunStaysBounded` | que/src/main/java/com/app/weather/component/CacheComponent.java:10-18 | along any sequence of put/get/remove from an empty cache, every state holds at most 100 entries |
| `Cache.NeverPutIsAbsent` | src/main/java/com/app/weather/component/CacheComponent.java:21-23 | a key no earlier put used is absent in every reachable state, so `get` answers absent |
| `Cache.FreshPut` | que/src/main/java/com/app/weather/component/CacheComponent.java:14-17 | putting a key not present grows the map by one up to 100, and adds no key but that one |
| `Cache.DistinctPutsFill` | src/main/java/com/app/weather/component/CacheComponent.java:12-19 | after i puts of pairwise distinct keys into an empty cache it holds min(i, 100) entries, none of them a key still to come |
| `Cache.HundredAndOneDistinctPuts` | BackWeather/src/main/java/com/app/weather/component/CacheComponent.java:17-23 | 101 puts of distinct keys into an empty cache leave exactly 100 entries |
| `Cache.PutMayEvictItsOwnKey` | BackWeather/src/main/java/com/app/weather/component/CacheComponent.java:18-22 | a new key put into a full cache whose iterator returns that key first leaves the cache unchanged, so put-then-get answers absent |
| `WeatherList.TotalPages` | WeatherFront/src/WeatherList.jsx:104 | the result is `ceil(n/7)`: the least t with 7·t ≥ n; zero exactly for an empty list |
| `WeatherList.PageWindow` | WeatherFront/src/WeatherList.jsx:105-120 | up to 5 pages: window 1..totalPages; more: a window of exactly 5 inside 1..totalPages; a current page in 1..totalPages lies inside the window; near the start (page ≤ 3) the window is 1..5, near the end (page + 2 ≥ totalPages) it is the last five pages; otherwise it is page − 2..page + 2 |
| `WeatherList.PageNumbers` | WeatherFront/src/WeatherList.jsx:122 | `endPage + 1 - startPage` numbers (none if that is not positive), increasing by one from `startPage` |
| `WeatherList.Pages` | WeatherFront/src/WeatherList.jsx:103-122 | at most 5 numbers, consecutive, each in 1..totalPages; exactly 1..totalPages when totalPages ≤ 5 (empty for no rows); exactly 5 otherwise; the list runs from the window's first page to its last (PageWindow); the current page is shown when it is a real page, in the middle when away from both ends |
| `WeatherList.CurrentWeathers` | WeatherFront/src/WeatherList.jsx:141 | at most 7 rows; from page 1 on, the existing rows at indices [(p-1)·7, p·7), in their original order; non-empty on every real page |
| `WeatherList.ItemOnItsPage` | WeatherFront/src/WeatherList.jsx:141 | row j appears on page j/7+1, which exists, at position j mod 7 |
| `WeatherList.NextEscapesOnEmptyList` | WeatherFront/src/WeatherList.jsx:136 | with no rows there are 0 pages, yet the "next" button as written is enabled on page 1; the corrected test disables it |
| `WeatherList.NextEscapesAfterDelete` | WeatherFront/src/WeatherList.jsx:136 | with 7 rows left on page 2 after a delete there is 1 page, yet "next" as written is enabled; the corrected test disables it |
| `WeatherList.NextAsWrittenAgreesOnRealPages` | WeatherFront/src/WeatherList.jsx:136 | on a real page of a non-empty list the written and the corrected "next" test agree |
| `WeatherList.PageAfter` | WeatherFront/src/WeatherList.jsx:126-136 | every enabled click moves to exactly its target (page − 1, page + 1, or the button's number); "previous" is enabled exactly off page 1; "next" exactly while a later page exists (the corrected test; see ## Findings); a page button is clickable exactly when it is shown; from a page in 1..LastPage every click lands in 1..LastPage |
| `WeatherList.DeleteById` | WeatherFront/src/WeatherList.jsx:61 | no remaining row has the id; every row with another id keeps its multiplicity; never longer |
| `WeatherList.DeleteByIdDistributes` | WeatherFront/src/WeatherList.jsx:61 | deleting works piece by piece over a concatenation, so the kept rows stay in their original order |
| `WeatherList.DeleteAbsentId` | WeatherFront/src/WeatherList.jsx:61 | deleting an id no row carries leaves the list unchanged |
| `WeatherList.MapById` | WeatherFront/src/WeatherList.jsx:50 | same length; each row with the id is replaced by f of it, every other row stays in place |
| `WeatherList.UpdateWeather` | WeatherFront/src/WeatherList.jsx:47-50 | same length; rows with the id become the server's answer; all other rows unchanged and in place |
| `WeatherList.AddWeather` | WeatherFront/src/WeatherList.jsx:72 | one row longer; the old rows unchanged and in place; the server's answer last |
| `WeatherList.AddThenDelete` | WeatherFront/src/WeatherList.jsx:72 | adding appends one row; adding a row with a fresh id and then deleting that id gives the original list back |
| `WeatherList.AddedWeatherOnLastPage` | WeatherFront/src/WeatherList.jsx:72 | the added row is the last row of the last page |
| `WeatherList.Edited` | WeatherFront/src/WeatherList.jsx:167-177 | each input sets its own field (city, temperature, or the condition to `{ text }`), keeps the other fields and never changes the row's id |
| `WeatherList.EditWeather` | WeatherFront/src/WeatherList.jsx:167-177 | same length and ids; rows with the id get the edit, all others are unchanged |
| `WeatherList.LastPage` | WeatherFront/src/WeatherList.jsx:136 | the last page navigation should reach: totalPages, or 1 for an empty list (at least 1 and at least totalPages, and one of the two) |

## Findings

| source | as written | input that shows it | evidently intended | confidence | as-written member | corrected member |
|---|---|---|---|---|---|---|
| WeatherFront/src/WeatherList.jsx:136 | "next" is disabled only when `currentPage === totalPages` | an empty list: totalPages is 0 and currentPage is 1, so "next" is enabled and moves to page 2, where no rows and no page buttons are shown; likewise 7 rows left while page 2 is shown after a delete (1 page, "next" still enabled) | disable "next" when `currentPage >= totalPages` | medium, not executed | `WeatherList.NextEscapesOnEmptyList` | `WeatherList.PageAfter` |

## Left out

- Java `null` keys and values in the cache: keys are strings and values are non-null payloads of a type parameter. `get` answers absent where Java answers `null`.
- The concrete `HashMap` iteration order. The evicted key is an arbitrary key of the map after the insertion, never a particular one.
- The BackWeather copy's `customLogger.cachePut()` and `cacheRemove()` calls (lines 24 and 33), which only write log lines.
- Concurrent use of the shared cache. The source has no synchronisation, so interleaved calls are undefined.
- The services, controllers, repositories, DTOs, exception handler, logging aspect and the Lab1 application. They are glue over the persistence and HTTP frameworks, with no logic of their own to state.
- In `WeatherList.jsx`:
  - the axios calls (`fetchWeathers`, `searchWeathers` and the requests inside the handlers). The server's answer is a parameter (`saved`), and a failed request, which leaves the list unchanged, is not modelled;
  - `showNotification` and its timer;
  - the JSX rendering, `searchQuery` and `newWeather` form state.
- The response handlers of `updateWeather`, `deleteWeather` and `addWeather` (WeatherList.jsx lines 50, 61 and 72) rebuild from the list captured when the request was sent, so overlapping requests can undo each other's changes. The model applies each handler to the list it is given and does not capture this interleaving.
- The server's `date` of a row and the id of its condition. Because of this, the model cannot show that the condition edit (line 177) replaces the condition with `{ text }` and drops its id.
- The current page is not reset when a delete shrinks the list. `Pages` and `CurrentWeathers` are total over all page numbers, so that case is covered, but no lemma is stated about it.
