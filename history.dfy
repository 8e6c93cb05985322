/** The browsing-history state of the product page: the click handler that
    records a product id, the guard in front of the recommendation request,
    and the names shown for the recorded ids. */
module History {

  import opened Common
  import opened Catalog

  /** The label shown for an id that matches no catalog product. */
  const UnknownProduct: string := "Unknown Product"

  /** `addToHistory`: the id goes on the end unless it is already recorded. */
  function AddToHistory(h: seq<int>, id: int): (r: seq<int>)
    ensures id in r
    ensures forall x :: x in r <==> x in h || x == id
    ensures id in h ==> r == h
    ensures id !in h ==> |r| == |h| + 1 && r[..|h|] == h && r[|h|] == id
    ensures Distinct(h) ==> Distinct(r)
  {
    if id in h then h else h + [id]
  }

  /** The history after the clicks `clicks`, in order, starting from the
      initial empty history. */
  function Clicks(clicks: seq<int>): seq<int>
    decreases |clicks|
  {
    if clicks == [] then []
    else AddToHistory(Clicks(clicks[..|clicks| - 1]), clicks[|clicks| - 1])
  }

  /** The position of the first occurrence of `x` in `s`. */
  function FirstIndex(s: seq<int>, x: int): (k: nat)
    requires x in s
    ensures k < |s| && s[k] == x
    ensures forall j :: 0 <= j < k ==> s[j] != x
  {
    if s[0] == x then 0 else 1 + FirstIndex(s[1..], x)
  }

  lemma FirstIndexExtend(s: seq<int>, x: int, y: int)
    requires y in s
    ensures y in s + [x] && FirstIndex(s + [x], y) == FirstIndex(s, y)
  {
    var k := FirstIndex(s, y);
    assert (s + [x])[k] == y;
  }

  /** Any click sequence yields each clicked id exactly once, in the order
      of first occurrence, and never more entries than clicks. */
  lemma {:induction false} SessionFirstOccurrence(clicks: seq<int>)
    ensures Distinct(Clicks(clicks))
    ensures forall x :: x in Clicks(clicks) <==> x in clicks
    ensures forall i, j :: 0 <= i < j < |Clicks(clicks)| ==>
              FirstIndex(clicks, Clicks(clicks)[i]) < FirstIndex(clicks, Clicks(clicks)[j])
    ensures |Clicks(clicks)| <= |clicks|
    decreases |clicks|
  {
    if clicks != [] {
      var n := |clicks| - 1;
      var prev, x := clicks[..n], clicks[n];
      assert clicks == prev + [x];
      SessionFirstOccurrence(prev);
      var h := Clicks(prev);
      assert Clicks(clicks) == AddToHistory(h, x);
      forall y | y in prev
        ensures FirstIndex(clicks, y) == FirstIndex(prev, y)
      {
        FirstIndexExtend(prev, x, y);
      }
      if x !in h {
        assert x !in prev;
        assert FirstIndex(clicks, x) == n;
        forall i, j | 0 <= i < j < |Clicks(clicks)|
          ensures FirstIndex(clicks, Clicks(clicks)[i]) < FirstIndex(clicks, Clicks(clicks)[j])
        {
          assert Clicks(clicks)[i] == h[i];
          if j < |h| {
            assert Clicks(clicks)[j] == h[j];
          }
        }
      }
    }
  }

  /** One more click adds at most one entry and keeps the earlier entries
      in place. */
  lemma {:induction false} ClickGrowth(clicks: seq<int>, x: int)
    ensures |Clicks(clicks + [x])| <= |Clicks(clicks)| + 1
    ensures Clicks(clicks + [x])[..|Clicks(clicks)|] == Clicks(clicks)
  {
  }

  /** A click on a product clicked earlier in the session changes nothing. */
  lemma {:induction false} RepeatedClick(clicks: seq<int>, x: int)
    requires x in clicks
    ensures Clicks(clicks + [x]) == Clicks(clicks)
  {
    SessionFirstOccurrence(clicks);
    assert (clicks + [x])[..|clicks|] == clicks;
  }

  /** What `getRecommendations` does: nothing is sent when the history is
      empty (the user is alerted instead); otherwise one request whose body
      carries the history. */
  datatype Request = NoRequest | Post(history: seq<int>)

  function GetRecommendations(h: seq<int>): (r: Request)
    ensures r.NoRequest? <==> h == []
    ensures r.Post? ==> r.history == h
  {
    if |h| == 0 then NoRequest else Post(h)
  }

  /** After at least one click on listed products, a request is sent, and
      every id it carries is the id of some catalog product (so the service
      finds them all). */
  lemma {:induction false} SessionRequest(catalog: seq<Product>, clicks: seq<int>)
    requires clicks != []
    requires forall k :: 0 <= k < |clicks| ==> exists j :: 0 <= j < |catalog| && catalog[j].id == clicks[k]
    ensures GetRecommendations(Clicks(clicks)).Post?
    ensures forall x :: x in GetRecommendations(Clicks(clicks)).history ==> FindFirst(catalog, x).Some?
  {
    SessionFirstOccurrence(clicks);
    assert clicks[0] in Clicks(clicks);
    forall x | x in Clicks(clicks)
      ensures FindFirst(catalog, x).Some?
    {
      var k :| 0 <= k < |clicks| && clicks[k] == x;
      var j :| 0 <= j < |catalog| && catalog[j].id == clicks[k];
    }
  }

  /** The name shown for a recorded id: that of the first catalog product
      with this id, or the placeholder when there is none. */
  function HistoryLabel(products: seq<Product>, id: int): (r: string)
    ensures (forall j :: 0 <= j < |products| ==> products[j].id != id) ==> r == UnknownProduct
    ensures forall j :: 0 <= j < |products| && products[j].id == id ==>
              (forall i :: 0 <= i < j ==> products[i].id != id) ==> r == products[j].name
  {
    match FindFirst(products, id)
    case None => UnknownProduct
    case Some(k) => products[k].name
  }

  /** The history list as rendered: one label per recorded id, in order. */
  function HistoryLabels(products: seq<Product>, h: seq<int>): (r: seq<string>)
    ensures |r| == |h|
    ensures forall k :: 0 <= k < |h| ==> r[k] == HistoryLabel(products, h[k])
  {
    seq(|h|, k requires 0 <= k < |h| => HistoryLabel(products, h[k]))
  }
}
