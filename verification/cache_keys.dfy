/** The cache keys under which listing pages are stored
    (livrosapi.py:84 and livrosapi.py:97 build the same key), the pattern the
    purge scans for (livrosapi.py:88), and a parser proving the key scheme is
    unambiguous. */
module CacheKeys {
  import opened Wrappers
  import opened Decimal

  /** Every listing key starts with this text; the purge's scan pattern is
      this prefix followed by the glob `*`. */
  const ListingPrefix: string := "livros:page="

  const LimitTag: string := "&limit="

  /** The key `livros:page={page}&limit={limit}`. */
  function ListingKey(page: int, limit: int): (k: string)
    ensures IsListingKey(k)
  {
    ListingPrefix + IntToString(page) + LimitTag + IntToString(limit)
  }

  /** A key matched by the purge's scan pattern `livros:page=*`. */
  predicate IsListingKey(k: string) {
    ListingPrefix <= k
  }

  /** Position of the first occurrence of `c` in `s`, if any. */
  function FindFirst(s: string, c: char): (r: Option<nat>)
    ensures r.Some? ==> r.value < |s| && s[r.value] == c
    ensures r.Some? ==> forall j :: 0 <= j < r.value ==> s[j] != c
    ensures r.None? <==> c !in s
    decreases |s|
  {
    if |s| == 0 then None
    else if s[0] == c then Some(0)
    else match FindFirst(s[1..], c)
      case None => None
      case Some(j) => Some(j + 1)
  }

  /** Recovers `(page, limit)` from a listing key; None for a key of any other shape. */
  function ParseListingKey(k: string): (r: Option<(int, int)>)
    ensures r.Some? ==> IsListingKey(k)
  {
    if !(ListingPrefix <= k) then None
    else
      var rest := k[|ListingPrefix|..];
      match FindFirst(rest, '&')
      case None => None
      case Some(amp) =>
        var tail := rest[amp..];
        if !(LimitTag <= tail) then None
        else
          match (ParseInt(rest[..amp]), ParseInt(tail[|LimitTag|..]))
          case (Some(page), Some(limit)) => Some((page, limit))
          case _ => None
  }

  /** The rendering of an integer never contains the `&` that ends the page field. */
  lemma NoAmpersandInNumeral(i: int)
    ensures '&' !in IntToString(i)
  {
    var p := IntToString(i);
    forall j | 0 <= j < |p|
      ensures p[j] != '&'
    {
      assert IsNumeralChar(p[j]);
    }
  }

  lemma FindFirstAfter(a: string, b: string, c: char)
    requires c !in a && |b| >= 1 && b[0] == c
    ensures FindFirst(a + b, c) == Some(|a|)
  {
    assert (a + b)[|a|] == c;
    assert forall j :: 0 <= j < |a| ==> (a + b)[j] == a[j];
  }

  /** The key scheme loses nothing: the key names its pagination exactly. */
  lemma ListingKeyRoundTrip(page: int, limit: int)
    ensures ParseListingKey(ListingKey(page, limit)) == Some((page, limit))
  {
    var p := IntToString(page);
    var l := IntToString(limit);
    var k := ListingKey(page, limit);
    var rest := k[|ListingPrefix|..];
    assert rest == p + (LimitTag + l);
    NoAmpersandInNumeral(page);
    FindFirstAfter(p, LimitTag + l, '&');
    assert rest[..|p|] == p;
    assert rest[|p|..] == LimitTag + l;
    assert (LimitTag + l)[|LimitTag|..] == l;
    IntToStringRoundTrip(page);
    IntToStringRoundTrip(limit);
  }

  /** Lookup (livrosapi.py:97) and save (livrosapi.py:84) agree on a key
      exactly when they agree on the pagination. */
  lemma ListingKeyInjective(page1: int, limit1: int, page2: int, limit2: int)
    ensures ListingKey(page1, limit1) == ListingKey(page2, limit2) <==> page1 == page2 && limit1 == limit2
  {
    ListingKeyRoundTrip(page1, limit1);
    ListingKeyRoundTrip(page2, limit2);
  }
}
