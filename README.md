# Product recommendation: browsing history and top-3 selection

This project models the two pieces of sequential logic in a small product
recommendation system.

- **The product page** (`frontend/app/page.tsx`) keeps a browsing history of
  product ids. A click on a product appends its id unless the id is already
  there. "Get Recommendations" sends nothing while the history is empty, and
  otherwise posts the history. Each recorded id is shown as the name of the
  first catalog product with that id, or "Unknown Product".
- **The `/recommend` endpoint** (`backend/main.py`) handles the history in
  these steps. It rejects an empty history with status 400. It maps each id,
  in order, to the first row carrying it, and rejects the first unknown id
  with status 404. It then takes every row that is not a history row, in row
  order, and returns nothing if there are none. Otherwise it scores each
  remaining row by its greatest similarity to any history row, and returns
  the three best, best first.

Modules:

- `Common`: `Option`, `Result`, `Distinct` and `Min`.
- `Catalog`: the `Product` record and `FindFirst`, the "first row with this
  id" lookup that both sides perform.
- `History`: the page's state transitions, as pure functions on `seq<int>`.
- `Recommender`: the endpoint. The history lookup is a method with a loop,
  as in the source. The candidate set, the scores and the top-3 selection
  are pure functions.

The similarity matrix is a parameter `sim: (nat, nat) -> int`. It is an
arbitrary total function with totally ordered values, and it stands in for
the TF-IDF cosine matrix. `Score` is the maximum of `sim(c, h)` over the
history rows. `TopK` picks a best-scoring remaining row again and again.
When scores tie, it takes the earliest in row order. The contracts do not
fix which tied row wins. They state only the length, distinctness,
exclusion of history rows, non-increasing order and dominance.

Rows are identified by position. This matches the pandas index labels the
source uses, given the default index that `read_csv` produces.

The page has no clear-history action, no loading indicator and no error
banner: failures only go to `console.error`, and the empty-history guard
uses `alert`.

## Model

| member | source | states |
|---|---|---|
| `Catalog.FindFirst` | frontend/app/page.tsx:77 | Returns the position of the first row whose id matches, or None exactly when no row has that id. |
| `History.AddToHistory` | frontend/app/page.tsx:27-31 | After the click the id is in the history, and the history holds exactly the old ids plus this one. A known id leaves the history unchanged. An unknown id is appended, with the earlier entries in place. A duplicate-free history stays duplicate-free. |
| `History.SessionFirstOccurrence` | frontend/app/page.tsx:15-31 | Any click sequence, starting from the empty history, leaves a duplicate-free history. It holds exactly the clicked ids, ordered by where each id was first clicked, and has no more entries than there were clicks. |
| `History.ClickGrowth` | frontend/app/page.tsx:27-31 | One more click adds at most one entry and leaves the earlier entries unchanged. |
| `History.RepeatedClick` | frontend/app/page.tsx:28 | A click on any id clicked earlier in the session leaves the history unchanged. |
| `History.GetRecommendations` | frontend/app/page.tsx:34-44 | No request is built exactly when the history is empty. Otherwise the request body carries exactly the current history. |
| `History.SessionRequest` | frontend/app/page.tsx:59-62 | After at least one click on listed products, a request is sent, and every id in it is the id of a catalog row. |
| `History.HistoryLabel` | frontend/app/page.tsx:77-80 | Shows the name of the first product with the id, or "Unknown Product" when no product has it. |
| `History.HistoryLabels` | frontend/app/page.tsx:76-83 | Gives one label per history entry, in history order. |
| `Recommender.LookupHistory` | backend/main.py:47-52 | Succeeds exactly when every history id is carried by some row. On success, entry k is the first row with history id k, which is the value of `HistoryRows`. On failure, it reports the first id, in history order, that no row carries. |
| `Recommender.HistoryRows` | backend/main.py:49-52 | For a history of known ids, entry k is the first row whose id is history id k. |
| `Recommender.Candidates` | backend/main.py:56 | Contains exactly the rows 0..n-1 that are not history rows, in strictly ascending order. |
| `Recommender.Score` | backend/main.py:62-63 | A candidate's score is its greatest similarity to any history row. The score is attained at some history row and bounds all of them. |
| `Recommender.TopK` | backend/main.py:64-65 | Returns min(k, \|rem\|) entries, all drawn from `rem` and distinct when `rem` is. They come in non-increasing score order, and no entry left out scores higher than any entry chosen. |
| `Recommender.Select` | backend/main.py:55-66 | Returns min(3, number of candidates) rows, so none when there are no candidates. They are distinct, none is a history row, and they come in non-increasing score order. No unchosen non-history row scores higher than a chosen one. |
| `Recommender.Recommend` | backend/main.py:39-66 | An empty history gives the 400 error. Otherwise the first unknown id gives the 404 error naming it. Success happens exactly when the history is non-empty and every id is known, and the result is the selection over the history's first-match rows. Every rejection carries status 400 when the history is empty and 404 otherwise. |

## Left out

- HTTP, `fetch`, FastAPI routing, CORS and JSON encoding and decoding are not modelled. The page's request is modelled as the value `Post(history)`. The endpoint's reply is modelled as row positions; turning those rows into records (`iloc`, `to_dict`) is not modelled.
- Loading the CSV file and computing the TF-IDF cosine similarity with pandas, scikit-learn and numpy are foreign library calls over floats. They are replaced by the parameter `sim`.
- Recommender.TopK: tie-breaking is not pinned to numpy's unstable `argsort`. The model takes the earliest tied row, and the contract says nothing about which tied row is chosen.
- The text of the error details is not modelled. Each error carries its kind, and `ProductNotFound` also carries the id. `Status` gives the HTTP status of each kind.
- React rendering, `alert`, `console.error` and price formatting are UI code and are not modelled. The `/products` endpoint and the page's fetch of it on mount are I/O and are not modelled either.
