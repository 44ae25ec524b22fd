/**
 The per-page classifier of main.py: the three-valued ticket status and
 `get_status`, which reads it off two marker phrases in the page body.
 */
module Classifier {
  import opened Wrappers
  import opened Text

  /** `Status` (main.py:20-23), in declaration order. */
  datatype Status = Available | Unclear | NotAvailable

  /** The text node shown while tickets cannot be bought yet. */
  const SaleStartsSoon: string := "Ticket sales start soon!"

  /** The text node shown while tickets are on sale. */
  const BuyTickets: string := "Buy Tickets here"

  /** What a parsed page offers the classifier: the text nodes under its
      `<body>` element in document order, or `None` when the page has no
      body (BeautifulSoup's `soup.body` is then `None`). */
  datatype Soup = Soup(body: Option<seq<string>>)

  /** The errors that `check_events` catches: any failure of the request or of
      parsing, and the `AttributeError` of reading a missing body. */
  datatype Error = RequestFailed | NoBody

  /** `get_status`: a marker counts as present when `find_all` finds a text
      node equal to it. Neither or both markers give `Unclear`, only the
      "soon" marker `NotAvailable`, only the "buy" marker `Available`; the
      final fall-through of the Python function is unreachable. A page
      without a body raises. */
  function GetStatus(soup: Soup): (r: Result<Status, Error>)
    ensures r.Err? <==> soup.body.None?
    ensures r.Err? ==> r.error == NoBody
    ensures r.Ok? ==>
      (r.value == Available <==> BuyTickets in soup.body.value && SaleStartsSoon !in soup.body.value)
    ensures r.Ok? ==>
      (r.value == NotAvailable <==> SaleStartsSoon in soup.body.value && BuyTickets !in soup.body.value)
    ensures r.Ok? ==>
      (r.value == Unclear <==> (SaleStartsSoon in soup.body.value <==> BuyTickets in soup.body.value))
  {
    match soup.body
    case None => Err(NoBody)
    case Some(nodes) =>
      var saleStartsSoon := |Matching(nodes, SaleStartsSoon)| > 0;
      var canBuyTickets := |Matching(nodes, BuyTickets)| > 0;
      if !saleStartsSoon && !canBuyTickets then Ok(Unclear)
      else if saleStartsSoon && canBuyTickets then Ok(Unclear)
      else if saleStartsSoon then Ok(NotAvailable)
      else if canBuyTickets then Ok(Available)
      else assert false; Ok(Unclear)
  }
}
