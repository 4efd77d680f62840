/** Which EEPROM writes of common/cmd_eeprom.c act as one flat write, for every page size. */
module EepromPages {
  import opened Arith
  import opened Basics
  import opened Eeprom

  // ---------------------------------------------------------------- a piece that leaves its page

  ghost predicate AllZero(t: seq<Byte>) { forall i :: 0 <= i < |t| ==> t[i] == 0 }

  /** No byte other than zero is sent to address b. */
  ghost predicate Spares(page: nat, a: nat, data: seq<Byte>, b: nat)
    requires page > 0
  {
    forall i :: 0 <= i < |data| ==> data[i] == 0 || Wrapped(page, a, i) != b
  }

  lemma {:induction false} SparedStaysZero(cells: seq<Byte>, page: nat, a: nat, data: seq<Byte>, b: nat)
    requires page > 0 && b < |cells| && cells[b] == 0 && Spares(page, a, data, b)
    ensures DeviceWrite(cells, page, a, data)[b] == 0
  {
    if data != [] {
      SparedStaysZero(cells, page, a, data[..|data| - 1], b);
    }
  }

  lemma {:induction false} ZerosStayZero(cells: seq<Byte>, page: nat, offset: nat, data: seq<Byte>, b: nat)
    requires page > 0 && b < |cells| && cells[b] == 0 && AllZero(data)
    ensures WritePieces(cells, page, offset, data)[b] == 0
    decreases |data|
  {
    if data != [] {
      var n := PieceLength(page, offset, |data|);
      SparedStaysZero(cells, page, offset, data[..n], b);
      ZerosStayZero(DeviceWrite(cells, page, offset, data[..n]), page, offset + n, data[n..], b);
    }
  }

  function OneAt(n: nat, k: nat): (t: seq<Byte>)
    requires k < n
    ensures |t| == n && t[k] == 1 && forall i :: 0 <= i < n && i != k ==> t[i] == 0
  {
    seq(n, i => if i == k then 1 else 0)
  }

  /** The byte meant for the end of the page goes to its beginning. */
  lemma WrapsAround(page: nat, a: nat)
    requires page > 0
    ensures Wrapped(page, a, page - a % page) == a - a % page
  {
    Quotient(page, 1, page, 0);
  }

  /** A one sent as the k-th byte of a request, among zeros, does not arrive. */
  ghost predicate Lost(cells: seq<Byte>, page: nat, offset: nat, left: nat, k: nat)
    requires page > 0
  {
    k < left && offset + left <= |cells| && WritePieces(cells, page, offset, OneAt(left, k))[offset + k] == 0
  }

  /** The byte for the first address behind the page of a piece that leaves it does not arrive there. */
  lemma LostAtOnce(cells: seq<Byte>, page: nat, offset: nat, left: nat, n: nat, k: nat)
    requires page > 0 && n == PieceLength(page, offset, left) && offset + left <= |cells| && AllZero(cells)
    requires k == page - offset % page < n
    ensures Lost(cells, page, offset, left, k)
  {
    var data, b := OneAt(left, k), offset + k;
    WrapsAround(page, offset);
    SparesOne(page, offset, data[..n], k, b);
    SparedStaysZero(cells, page, offset, data[..n], b);
    PiecesStart(cells, page, offset, data, n);
    ZerosStayZero(DeviceWrite(cells, page, offset, data[..n]), page, offset + n, data[n..], b);
  }

  lemma SparesOne(page: nat, a: nat, t: seq<Byte>, k: nat, b: nat)
    requires page > 0 && k < |t| && (forall i :: 0 <= i < |t| && i != k ==> t[i] == 0) && Wrapped(page, a, k) != b
    ensures Spares(page, a, t, b)
  {
  }

  lemma LostLater(cells: seq<Byte>, page: nat, offset: nat, left: nat, n: nat, j: nat)
    requires page > 0 && n == PieceLength(page, offset, left) && offset + left <= |cells| && AllZero(cells)
    requires n <= left && Lost(cells, page, offset + n, left - n, j)
    ensures Lost(cells, page, offset, left, n + j)
  {
    var data := OneAt(left, n + j);
    assert data[n..] == OneAt(left - n, j);
    ZeroPiece(cells, page, offset, data[..n]);
  }

  /** In a request with a piece that leaves its page, some byte does not arrive: its cell keeps its zero. */
  lemma {:induction false} ByteLost(cells: seq<Byte>, page: nat, offset: nat, left: nat) returns (k: nat)
    requires page > 0 && !StaysInPages(page, offset, left) && offset + left <= |cells| && AllZero(cells)
    ensures Lost(cells, page, offset, left, k)
    decreases left
  {
    var n, room := FirstLength(page, offset, left);
    if n > room {
      k := room;
      LostAtOnce(cells, page, offset, left, n, k);
    } else {
      var j := ByteLost(cells, page, offset + n, left - n);
      k := n + j;
      LostLater(cells, page, offset, left, n, j);
    }
  }

  /** The first piece of a request that does not stay in its pages, and the room for it in its page. */
  lemma FirstLength(page: nat, offset: nat, left: nat) returns (n: nat, room: nat)
    requires page > 0 && !StaysInPages(page, offset, left)
    ensures 0 < n <= left && n == PieceLength(page, offset, left) && room == page - offset % page
    ensures n <= room ==> !StaysInPages(page, offset + n, left - n)
  {
    n, room := PieceLength(page, offset, left), page - offset % page;
  }

  lemma ZeroPiece(cells: seq<Byte>, page: nat, a: nat, data: seq<Byte>)
    requires page > 0 && AllZero(cells) && AllZero(data)
    ensures DeviceWrite(cells, page, a, data) == cells
  {
    var r := DeviceWrite(cells, page, a, data);
    forall b | 0 <= b < |cells|
      ensures r[b] == 0
    {
      SparedStaysZero(cells, page, a, data, b);
    }
  }

  /** A request acts as one flat write on every content exactly if its pieces stay inside their pages. */
  lemma FlatExactly(size: nat, page: nat, offset: nat, left: nat)
    requires page > 0 && offset + left <= size
    ensures (forall cells: seq<Byte>, data: seq<Byte> :: |cells| == size && |data| == left ==>
               WritePieces(cells, page, offset, data) == FlatWrite(cells, offset, data))
            <==> StaysInPages(page, offset, left)
  {
    if StaysInPages(page, offset, left) {
      forall cells: seq<Byte>, data: seq<Byte> | |cells| == size && |data| == left
        ensures WritePieces(cells, page, offset, data) == FlatWrite(cells, offset, data)
      {
        FlatIfInPages(cells, page, offset, data);
      }
    } else {
      var cells: seq<Byte> := seq(size, _ => 0);
      var k := ByteLost(cells, page, offset, left);
      assert FlatWrite(cells, offset, OneAt(left, k))[offset + k] == 1;
    }
  }

  // ---------------------------------------------------------------- the condition, for every page size

  /** Pages of up to eight bits: every request. */
  lemma {:induction false} SmallPages(page: nat, offset: nat, left: nat)
    requires IsPage(page)
    ensures StaysInPages(page, offset, left)
    decreases left
  {
    if left > 0 {
      PieceInPage(page, offset, left);
      SmallPages(page, offset + PieceLength(page, offset, left), left - PieceLength(page, offset, left));
    }
  }

  predicate PageBegins(page: nat, b: nat)
    requires page > 0
  {
    b % page == 0
  }

  /** No page begins inside the n bytes from a on, other than at a. */
  ghost predicate NoneBegins(page: nat, a: nat, n: nat)
    requires page > 0
  {
    forall b :: a < b < a + n ==> !PageBegins(page, b)
  }

  /** A piece of n bytes leaves its page if and only if a page begins inside it. */
  lemma PageBeginsInside(page: nat, a: nat, n: nat)
    requires page > 0
    ensures a % page + n <= page <==> NoneBegins(page, a, n)
  {
    var q, m := a / page, a % page;
    Divided(a, page);
    if m + n <= page {
      forall b | a < b < a + n
        ensures !PageBegins(page, b)
      {
        Quotient(b, q, page, m + (b - a));
      }
    } else {
      var b := a - m + page;
      Distribute(q, 1, page);
      Quotient(b, q + 1, page, 0);
      assert PageBegins(page, b);
    }
  }

  /** If a page begins at b, it does so a whole number of full buffers behind the offset. */
  predicate Fits(page: nat, offset: nat, b: nat)
    requires page > 0 && offset <= b
  {
    PageBegins(page, b) ==> (b - offset) % I2C_RXTX_LEN == 0
  }

  ghost predicate BoundariesFit(page: nat, offset: nat, left: nat)
    requires page > 0
  {
    forall b :: offset < b < offset + left ==> Fits(page, offset, b)
  }

  lemma FitsLater(page: nat, offset: nat, b: nat)
    requires page > 0 && offset + I2C_RXTX_LEN <= b
    ensures Fits(page, offset, b) == Fits(page, offset + I2C_RXTX_LEN, b)
  {
    assert (b - offset) % I2C_RXTX_LEN == (b - offset - I2C_RXTX_LEN) % I2C_RXTX_LEN;
  }

  lemma FitsNow(page: nat, offset: nat, b: nat)
    requires page > 0 && offset < b < offset + I2C_RXTX_LEN
    ensures Fits(page, offset, b) <==> !PageBegins(page, b)
  {
  }

  lemma FirstPiece(page: nat, offset: nat, left: nat, n: nat)
    requires page > 0 && n == Min(left, I2C_RXTX_LEN) && left > 0
    ensures BoundariesFit(page, offset, left) <==>
            NoneBegins(page, offset, n) && BoundariesFit(page, offset + n, left - n)
  {
    forall b | offset < b < offset + left
      ensures b < offset + n ==> (Fits(page, offset, b) <==> !PageBegins(page, b))
      ensures b == offset + n ==> Fits(page, offset, b)
      ensures b > offset + n ==> Fits(page, offset, b) == Fits(page, offset + n, b)
    {
      if b < offset + n {
        FitsNow(page, offset, b);
      } else {
        FitsLater(page, offset, b);
      }
    }
  }

  /** Pages of more than eight bits: exactly the requests in which pages begin at whole buffers. */
  lemma {:induction false} LargePages(page: nat, offset: nat, left: nat)
    requires page > BLOCK && page % BLOCK == 0
    ensures StaysInPages(page, offset, left) <==> BoundariesFit(page, offset, left)
    decreases left
  {
    if left > 0 {
      var n := PieceLength(page, offset, left);
      LargePiece(page, offset, left);
      PageBeginsInside(page, offset, n);
      FirstPiece(page, offset, left, n);
      LargePages(page, offset + n, left - n);
    }
  }

  lemma LargePiece(page: nat, offset: nat, left: nat)
    requires page > BLOCK && page % BLOCK == 0
    ensures PieceLength(page, offset, left) == Min(left, I2C_RXTX_LEN)
  {
    var r := offset % BLOCK;
    Quotient(r, 0, page, r);
    assert page >= 2 * BLOCK;
  }

  lemma TwoBytes(cells: seq<Byte>, page: nat, a: nat, x: Byte, y: Byte)
    requires page > 0 && Wrapped(page, a, 0) < |cells| && Wrapped(page, a, 1) < |cells|
    ensures DeviceWrite(cells, page, a, [x, y]) == cells[Wrapped(page, a, 0) := x][Wrapped(page, a, 1) := y]
  {
    var data := [x, y];
    assert data[..1] == [x] && [x][..0] == [];
    assert DeviceWrite(cells, page, a, []) == cells;
    assert DeviceWrite(cells, page, a, [x]) == cells[Wrapped(page, a, 0) := x];
  }

  /** Two bytes at the end of a page of 512 bytes: the second one goes to the beginning of the page. */
  lemma LargePageWitness(cells: seq<Byte>, page: nat, offset: nat)
    requires |cells| == 1024 && AllZero(cells) && page == 512 && offset == 511
    ensures !StaysInPages(page, offset, 2)
    ensures DeviceWrite(cells, page, offset, [1, 2])[0] == 2 && DeviceWrite(cells, page, offset, [1, 2])[512] == 0
  {
    LargePages(page, offset, 2);
    assert !Fits(page, offset, 512);
    assert Wrapped(page, offset, 0) == 511 && Wrapped(page, offset, 1) == 0;
    TwoBytes(cells, page, offset, 1, 2);
  }
}
