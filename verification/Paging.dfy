/** Pages of a wallet's transactions. */
module Paging {
  import opened Basics
  import opened Digits

  const DEFAULT_PAGE: int := 1
  const DEFAULT_PAGE_SIZE: int := 10
  const MAX_PAGE_SIZE: int := 100

  function ValidatePagination(page: int, pageSize: int): (r: (int, int))
    ensures r.0 >= 1 && 1 <= r.1 <= 100
    ensures page >= 1 ==> r.0 == page
    ensures page < 1 ==> r.0 == 1
    ensures 1 <= pageSize <= 100 ==> r.1 == pageSize
    ensures pageSize < 1 ==> r.1 == 10
    ensures pageSize > 100 ==> r.1 == 100
  {
    (if page < 1 then DEFAULT_PAGE else page,
     if pageSize < 1 then DEFAULT_PAGE_SIZE else if pageSize > MAX_PAGE_SIZE then MAX_PAGE_SIZE else pageSize)
  }

  /** LIMIT and OFFSET on a fixed ordered result; a negative offset is an error. */
  function Query<T>(all: seq<T>, limit: nat, offset: int): Option<seq<T>> {
    if offset < 0 then None
    else if offset >= |all| then Some([])
    else if offset + limit >= |all| then Some(all[offset..])
    else Some(all[offset..offset + limit])
  }

  datatype Listing<T> = Listing(rows: seq<T>, total: nat, page: int, pageSize: int, totalPages: int)

  function TotalPages(total: nat, size: nat): nat
    requires size > 0
  {
    (total + size - 1) / size
  }

  /** The rows that page p returns, if the query succeeds. */
  function Page<T>(all: seq<T>, size: nat, p: int): Option<seq<T>> {
    Query(all, size, ToInt32((p - 1) * size))
  }

  datatype Error = WalletNotFound | InvalidChainID | TransactionNotFound

  datatype Result<T> = Ok(value: T) | Err(error: Error)

  /** The lookups of the wallet and of the chain and the two queries, in order, each of which can fail. */
  method GetTransactions<T>(all: seq<T>, page: int, pageSize: int, wallet: bool, chain: bool, listed: bool,
      counted: bool) returns (r: Result<Listing<T>>)
    ensures r == Err(WalletNotFound) <==> !wallet
    ensures r == Err(InvalidChainID) <==> wallet && !chain
    ensures var (p, size) := ValidatePagination(page, pageSize);
            var rows := Page(all, size, p);
            && (r == Err(TransactionNotFound) <==> wallet && chain && !(listed && rows.Some? && counted))
            && (r.Ok? ==> rows.Some? && r.value == Listing(rows.value, |all|, p, size, TotalPages(|all|, size)))
  {
    var (p, size) := ValidatePagination(page, pageSize);
    if !wallet {
      return Err(WalletNotFound);
    }
    if !chain {
      return Err(InvalidChainID);
    }
    var offset := (p - 1) * size;
    var transactions := if listed then Query(all, size, ToInt32(offset)) else None;
    if transactions.None? {
      return Err(TransactionNotFound);
    }
    if !counted {
      return Err(TransactionNotFound);
    }
    var total := |all|;
    var totalPages := (total + size - 1) / size;
    return Ok(Listing(transactions.value, total, p, size, totalPages));
  }

  /** Pages 1..n one after the other. */
  function Pages<T>(all: seq<T>, size: nat, n: nat): seq<T> {
    if n == 0 then [] else
      Pages(all, size, n - 1) + (var p := Page(all, size, n); if p.Some? then p.value else [])
  }

  lemma Int32Identity(x: int)
    requires -0x8000_0000 <= x < 0x8000_0000
    ensures ToInt32(x) == x
  {
    DivModUnique(0x1_0000_0000, 0, x + 0x8000_0000);
  }

  /** The number of pages is the least that covers the list. */
  lemma TotalPagesCover(total: nat, size: nat)
    requires size > 0
    ensures (TotalPages(total, size) - 1) * size < total <= TotalPages(total, size) * size
         || total == 0 == TotalPages(total, size)
  {
    var n := TotalPages(total, size);
    DivMod(size, total + size - 1);
    assert (n - 1) * size == n * size - size;
    if total == 0 {
      DivModUnique(size, 0, size - 1);
    }
  }

  /** Page p of a list that needs it holds its place in the list; all pages but the last are full. */
  lemma PageAt<T>(all: seq<T>, size: nat, p: nat)
    requires size > 0 && |all| <= 0x8000_0000 && 1 <= p <= TotalPages(|all|, size)
    ensures 0 <= (p - 1) * size < |all|
    ensures p < TotalPages(|all|, size) ==> (p - 1) * size + size < |all|
    ensures Page(all, size, p) ==
            Some(if (p - 1) * size + size < |all| then all[(p - 1) * size..(p - 1) * size + size]
                 else all[(p - 1) * size..])
  {
    var n := TotalPages(|all|, size);
    TotalPagesCover(|all|, size);
    MulMonotone(0, p - 1, size);
    MulMonotone(p - 1, n - 1, size);
    if p < n {
      MulMonotone(p, n - 1, size);
      assert p * size == (p - 1) * size + size;
    }
    Int32Identity((p - 1) * size);
  }

  lemma {:induction false} PagesPrefix<T>(all: seq<T>, size: nat, n: nat)
    requires size > 0 && |all| <= 0x8000_0000 && n <= TotalPages(|all|, size)
    ensures Pages(all, size, n) == if n * size < |all| then all[..n * size] else all
    decreases n
  {
    if n == 0 {
      if |all| == 0 {
        TotalPagesCover(0, size);
      }
    } else {
      PagesPrefix(all, size, n - 1);
      PageAt(all, size, n);
      assert n * size == (n - 1) * size + size;
    }
  }

  /** The pages partition the list: together they are the list, and all but the last are full. */
  lemma PagesPartition<T>(all: seq<T>, size: nat)
    requires 0 < size && |all| <= 0x8000_0000
    ensures Pages(all, size, TotalPages(|all|, size)) == all
    ensures forall p | 1 <= p < TotalPages(|all|, size) ::
              Page(all, size, p).Some? && |Page(all, size, p).value| == size
  {
    PagesPrefix(all, size, TotalPages(|all|, size));
    TotalPagesCover(|all|, size);
    forall p | 1 <= p < TotalPages(|all|, size)
      ensures Page(all, size, p).Some? && |Page(all, size, p).value| == size
    {
      PageAt(all, size, p);
    }
  }

  /** The cut keeps the residue modulo 2^32, the upper half of which is negative. */
  lemma Int32Residue(x: int)
    ensures ToInt32(x) == x % UINT32 - if x % UINT32 < 0x8000_0000 then 0 else UINT32
  {
    DivMod(UINT32, x);
    var q, m := x / UINT32, x % UINT32;
    if m < 0x8000_0000 {
      DivModUnique(UINT32, q, m + 0x8000_0000);
    } else {
      DivModUnique(UINT32, q + 1, m - 0x8000_0000);
    }
  }

  /** A page has rows, is empty or fails by where its offset falls modulo 2^32, wherever it lies. */
  lemma LaterPageExactly<T>(all: seq<T>, size: nat, p: int)
    requires 0 < size && |all| <= 0x8000_0000
    ensures var m := (p - 1) * size % 0x1_0000_0000;
            && (m < |all| ==> Page(all, size, p) == Some(all[m..if m + size < |all| then m + size else |all|]))
            && (Page(all, size, p).Some? && Page(all, size, p).value != [] <==> m < |all|)
            && (Page(all, size, p) == Some([]) <==> |all| <= m < 0x8000_0000)
            && (Page(all, size, p) == None <==> 0x8000_0000 <= m)
  {
    Int32Residue((p - 1) * size);
    var m := (p - 1) * size % 0x1_0000_0000;
    if m < |all| {
      assert all[m..|all|] == all[m..];
    }
  }

  /** The same by the cut offset, for lists of any length. */
  lemma CutOffsetExactly<T>(all: seq<T>, size: nat, p: int)
    requires 0 < size
    ensures Page(all, size, p) == Some([]) <==> ToInt32((p - 1) * size) >= |all|
    ensures Page(all, size, p) == None <==> ToInt32((p - 1) * size) < 0
  {
  }

  /** A later page whose offset fits 32 bits is empty. */
  lemma LaterPageEmpty<T>(all: seq<T>, size: nat, p: nat)
    requires 0 < size && p > TotalPages(|all|, size) && (p - 1) * size < 0x8000_0000
    ensures Page(all, size, p) == Some([])
  {
    TotalPagesCover(|all|, size);
    MulMonotone(TotalPages(|all|, size), p - 1, size);
    MulMonotone(0, p - 1, size);
    Int32Identity((p - 1) * size);
  }

  /** A page far behind the end shows the first page again. */
  lemma WrappedPage()
    ensures ValidatePagination(67108865, 64) == (67108865, 64)
    ensures Page([true], 64, 67108865) == Some([true]) && TotalPages(1, 64) == 1
  {
  }

  /** Another one fails. */
  lemma FailingPage()
    ensures ValidatePagination(33554433, 64) == (33554433, 64)
    ensures Page([true], 64, 33554433) == None
  {
  }
}
