/** kernel/term.c: the text screen, 25 rows of 80 two-byte cells, as a window on a growing page. */
module Terminal {
  import opened Words
  import opened Ascii

  const VGA_WIDTH := 80
  const VGA_HEIGHT := 25
  const WHITE := 15
  const BLACK := 0

  // ---- copying ----

  /** Copying n bytes one by one, lowest address first. */
  function CopyUp(s: seq<Byte>, dest: nat, src: nat, n: nat): (t: seq<Byte>)
    requires dest + n <= |s| && src + n <= |s|
    ensures |t| == |s|
  {
    if n == 0 then s else
      var t := CopyUp(s, dest, src, n - 1);
      t[dest + (n - 1) := t[src + (n - 1)]]
  }

  /** Such a copy is right for overlapping regions too, as long as it goes down. */
  lemma {:induction false} CopyUpMoves(s: seq<Byte>, dest: nat, src: nat, n: nat)
    requires dest + n <= |s| && src + n <= |s| && (dest <= src || src + n <= dest)
    ensures CopyUp(s, dest, src, n) == s[..dest] + s[src..src + n] + s[dest + n..]
  {
    if n > 0 {
      CopyUpMoves(s, dest, src, n - 1);
    }
  }

  /** Going up into its own source, it repeats bytes instead. */
  lemma CopyUpRepeats(a: Byte, b: Byte)
    ensures CopyUp([a, b, b], 1, 0, 2) == [a, a, a]
  {
    hide CopyUp;
    var s, t := [a, b, b], [a, a, b];
    CopyOne(s, 1, 0, 0);
    CopyOne(s, 1, 0, 1);
    assert s[1 := s[0]] == t && t[2 := t[1]] == [a, a, a];
  }

  lemma CopyOne(s: seq<Byte>, dest: nat, src: nat, n: nat)
    requires dest + n < |s| && src + n < |s|
    ensures var t := CopyUp(s, dest, src, n); CopyUp(s, dest, src, n + 1) == t[dest + n := t[src + n]]
    ensures CopyUp(s, dest, src, 0) == s
  {
  }

  method Memcpy(a: array<Byte>, dest: nat, src: nat, size: nat)
    requires dest + size <= a.Length && src + size <= a.Length
    modifies a
    ensures a[..] == CopyUp(old(a[..]), dest, src, size)
  {
    var progress := 0;
    while progress < size
      invariant progress <= size && a[..] == CopyUp(old(a[..]), dest, src, progress)
    {
      a[dest + progress] := a[src + progress];
      progress := progress + 1;
    }
  }

  // ---- the page ----

  datatype Cell = Cell(c: Byte, fg: Byte, bg: Byte)

  type Row = r: seq<Cell> | |r| == VGA_WIDTH witness seq(VGA_WIDTH, _ => Cell(SPACE, WHITE, BLACK))

  function Blank(): Row {
    seq(VGA_WIDTH, _ => Cell(SPACE, WHITE, BLACK))
  }

  /** Everything printed so far; the cursor is in the last row, at column `col` (80: past its end). */
  datatype Page = Page(rows: seq<Row>, col: nat)

  predicate Proper(p: Page) { |p.rows| > 0 && p.col <= VGA_WIDTH }

  function Cleared(): (p: Page)
    ensures Proper(p)
  {
    Page([Blank()], 0)
  }

  function SetLast(p: Page, col: nat, cell: Cell): Page
    requires Proper(p) && col < VGA_WIDTH
  {
    var n := |p.rows| - 1;
    p.(rows := p.rows[n := p.rows[n][col := cell]])
  }

  function NewRow(p: Page): Page {
    Page(p.rows + [Blank()], 0)
  }

  /** One character printed at the end of the page. */
  function Put(p: Page, c: Byte): (q: Page)
    requires Proper(p)
    ensures Proper(q)
  {
    if c == RETURN then p.(col := 0)
    else if c == BACKSPACE then
      if p.col == 0 then p
      else SetLast(p, p.col - 1, p.rows[|p.rows| - 1][p.col - 1].(c := SPACE)).(col := p.col - 1)
    else if c == NEWLINE then NewRow(p)
    else
      var q := if p.col == VGA_WIDTH then NewRow(p) else p;
      SetLast(q, q.col, Cell(c, WHITE, BLACK)).(col := q.col + 1)
  }

  function PutAll(p: Page, text: seq<Byte>): (q: Page)
    requires Proper(p)
    ensures Proper(q)
  {
    if text == [] then p else Put(PutAll(p, text[..|text| - 1]), text[|text| - 1])
  }

  lemma {:induction false} PutTwice(p: Page, s: seq<Byte>, t: seq<Byte>)
    requires Proper(p)
    ensures PutAll(p, s + t) == PutAll(PutAll(p, s), t)
  {
    if t == [] {
      assert s + t == s;
    } else {
      var n := |t| - 1;
      PutTwice(p, s, t[..n]);
      assert (s + t)[..|s + t| - 1] == s + t[..n];
    }
  }

  predicate Printable(c: Byte) { c != RETURN && c != BACKSPACE && c != NEWLINE }

  /** Printable text is laid out 80 characters to a row; the row after a full one is opened
      only by the next character. */
  lemma {:induction false} PlainText(text: seq<Byte>)
    requires forall i :: 0 <= i < |text| ==> Printable(text[i])
    ensures var p, n := PutAll(Cleared(), text), |text|;
      && |p.rows| == (if n == 0 then 1 else (n - 1) / VGA_WIDTH + 1)
      && p.col == (if n == 0 then 0 else (n - 1) % VGA_WIDTH + 1)
    ensures forall k :: 0 <= k < |text| ==>
      k / VGA_WIDTH < |PutAll(Cleared(), text).rows| &&
      PutAll(Cleared(), text).rows[k / VGA_WIDTH][k % VGA_WIDTH] == Cell(text[k], WHITE, BLACK)
  {
    if text != [] {
      var n := |text| - 1;
      PlainText(text[..n]);
      var p, q := PutAll(Cleared(), text[..n]), PutAll(Cleared(), text);
      NextPlace(n);
      forall k | 0 <= k < |text|
        ensures k / VGA_WIDTH < |q.rows| && q.rows[k / VGA_WIDTH][k % VGA_WIDTH] == Cell(text[k], WHITE, BLACK)
      {
        Places(k, n);
        assert k < n ==> text[..n][k] == text[k];
      }
    }
  }

  lemma NextPlace(n: nat)
    ensures n > 0 ==>
      if (n - 1) % VGA_WIDTH == VGA_WIDTH - 1 then n / VGA_WIDTH == (n - 1) / VGA_WIDTH + 1 && n % VGA_WIDTH == 0
                      else n / VGA_WIDTH == (n - 1) / VGA_WIDTH && n % VGA_WIDTH == (n - 1) % VGA_WIDTH + 1
  {
  }

  lemma Places(k: nat, n: nat)
    requires k <= n
    ensures k / VGA_WIDTH <= n / VGA_WIDTH && k % VGA_WIDTH < VGA_WIDTH
    ensures k / VGA_WIDTH == n / VGA_WIDTH && k % VGA_WIDTH == n % VGA_WIDTH ==> k == n
  {
  }

  // ---- lines and cursor movements ----

  /** A line of text: at most 80 characters, none of them backspace (8), newline (10) or carriage return (13). */
  predicate Line(line: seq<Byte>) {
    |line| <= 80 && forall i :: 0 <= i < |line| ==> line[i] != 8 && line[i] != 10 && line[i] != 13
  }

  /** The lines with a newline between each two. */
  function Joined(lines: seq<seq<Byte>>): seq<Byte> {
    if lines == [] then []
    else if |lines| == 1 then lines[0]
    else Joined(lines[..|lines| - 1]) + [10] + lines[|lines| - 1]
  }

  /** A row that shows this line, white (15) on black (0), and blanks (32) after it. */
  ghost predicate RowOf(row: Row, line: seq<Byte>) {
    forall c :: 0 <= c < 80 ==> row[c] == Cell(if c < |line| then line[c] else 32, 15, 0)
  }

  /** The page p with a line printed on its blank last row. */
  ghost predicate LinePut(p: Page, q: Page, line: seq<Byte>) {
    && |q.rows| == |p.rows| > 0 && q.col == |line|
    && (forall k :: 0 <= k < |p.rows| - 1 ==> q.rows[k] == p.rows[k])
    && RowOf(q.rows[|q.rows| - 1], line)
  }

  lemma {:induction false} PutLine(p: Page, line: seq<Byte>)
    requires Proper(p) && p.col == 0 && RowOf(p.rows[|p.rows| - 1], []) && Line(line)
    ensures LinePut(p, PutAll(p, line), line)
  {
    if line != [] {
      var n := |line| - 1;
      PutLine(p, line[..n]);
      var q := PutAll(p, line[..n]);
      assert PutAll(p, line) == Put(q, line[n]);
      assert forall c :: 0 <= c < n ==> line[..n][c] == line[c];
    }
  }

  /** Lines of at most 80 characters are shown one to a row, blanks after each, with the cursor at the end of
      the last: a newline always opens the next row, a full line does not. */
  lemma {:induction false} LinesShown(lines: seq<seq<Byte>>)
    requires lines != [] && forall k :: 0 <= k < |lines| ==> Line(lines[k])
    ensures var p := PutAll(Cleared(), Joined(lines));
      && |p.rows| == |lines| && p.col == |lines[|lines| - 1]|
      && forall k :: 0 <= k < |lines| ==> RowOf(p.rows[k], lines[k])
  {
    hide Put, PutAll, Line;
    var n := |lines| - 1;
    if n == 0 {
      PutLine(Cleared(), lines[0]);
    } else {
      var before := Joined(lines[..n]);
      LinesShown(lines[..n]);
      var p := PutAll(Cleared(), before);
      NewLine(p);
      PutTwice(Cleared(), before, [10]);
      PutOne(p, 10);
      PutLine(Put(p, 10), lines[n]);
      PutTwice(Cleared(), before + [10], lines[n]);
      var q := PutAll(Cleared(), Joined(lines));
      assert q == PutAll(Put(p, 10), lines[n]);
      forall k | 0 <= k < n ensures RowOf(q.rows[k], lines[k]) {
        assert q.rows[k] == Put(p, 10).rows[k] == p.rows[k];
        assert lines[..n][k] == lines[k];
      }
    }
  }

  lemma PutOne(p: Page, c: Byte)
    requires Proper(p)
    ensures PutAll(p, [c]) == Put(p, c)
  {
    assert [c][..0] == [];
    assert PutAll(p, []) == p;
  }

  /** A newline (10) opens a blank row, and keeps the others. */
  lemma NewLine(p: Page)
    requires Proper(p)
    ensures var q := Put(p, 10);
      && |q.rows| == |p.rows| + 1 && q.col == 0 && RowOf(q.rows[|p.rows|], [])
      && forall k :: 0 <= k < |p.rows| ==> q.rows[k] == p.rows[k]
  {
  }

  /** A carriage return (13) goes to the start of the row. */
  lemma CarriageReturn(p: Page)
    requires Proper(p)
    ensures Put(p, 13).rows == p.rows && Put(p, 13).col == 0
  {
  }

  /** A backspace (8) takes back the character before it, and with it nothing else; at the start of a row it
      does nothing. After a character that did not fit in its row, the row it opened stays. */
  lemma TakenBack(p: Page, c: Byte)
    requires Proper(p) && c != 8 && c != 10 && c != 13
    ensures p.col == 0 ==> Put(p, 8) == p
    ensures p.col > 0 ==>
      && Put(p, 8).col == p.col - 1 && |Put(p, 8).rows| == |p.rows|
      && (forall k :: 0 <= k < |p.rows| - 1 ==> Put(p, 8).rows[k] == p.rows[k])
      && var row, row' := p.rows[|p.rows| - 1], Put(p, 8).rows[|p.rows| - 1];
      forall x :: 0 <= x < 80 ==> row'[x] == if x == p.col - 1 then row[x].(c := 32) else row[x]
    ensures p.col < 80 && p.rows[|p.rows| - 1][p.col] == Cell(32, 15, 0) ==> Put(Put(p, c), 8) == p
    ensures p.col == 80 ==> Put(Put(p, c), 8) == Put(p, 10)
  {
    var n := |p.rows| - 1;
    if p.col < 80 && p.rows[n][p.col] == Cell(32, 15, 0) {
      var q := Put(Put(p, c), 8);
      assert q.rows[n] == p.rows[n];
      assert q.rows == p.rows;
    }
    if p.col == 80 {
      var q := Put(Put(p, c), 8);
      assert q.rows[n + 1] == Put(p, 10).rows[n + 1];
      assert q.rows == Put(p, 10).rows;
    }
  }

  // ---- the window ----

  /** The row of the page shown in row r of the screen: the last 25, or blank below a shorter page. */
  function Window(p: Page, r: nat): Row
    requires r < VGA_HEIGHT
  {
    var top := if |p.rows| > VGA_HEIGHT then |p.rows| - VGA_HEIGHT else 0;
    if top + r < |p.rows| then p.rows[top + r] else Blank()
  }

  /** The cell stored for row r, column c: a character byte and an attribute byte. */
  function Shown(v: seq<Byte>, r: nat, c: nat): Cell
    requires |v| == 2 * VGA_WIDTH * VGA_HEIGHT && r < VGA_HEIGHT && c < VGA_WIDTH
  {
    var i := 2 * (c + r * VGA_WIDTH);
    Cell(v[i], v[i + 1] % 16, v[i + 1] / 16)
  }

  /** The screen in memory is the last 25 rows of the page, or the whole page and blank rows; each cell is its
      character byte, then its colours, the foreground in the low four bits. */
  lemma ShownBytes(v: seq<Byte>, p: Page, r: nat, c: nat)
    requires Shows(v, p) && r < 25 && c < 80
    ensures |v| == 4000
    ensures var n := |p.rows|;
      var cell :=
        if n > 25 then p.rows[n - 25 + r][c] else if r < n then p.rows[r][c] else Cell(32, 15, 0);
      v[2 * (80 * r + c)] == cell.c && v[2 * (80 * r + c) + 1] == cell.fg + 16 * cell.bg
  {
    CellBytes(v, r, c);
    hide Shown;
    assert Shown(v, r, c) == Window(p, r)[c];
  }

  lemma CellBytes(v: seq<Byte>, r: nat, c: nat)
    requires |v| == 4000 && r < 25 && c < 80
    ensures var i, cell := 2 * (80 * r + c), Shown(v, r, c); v[i] == cell.c && v[i + 1] == cell.fg + 16 * cell.bg
  {
    Nibbles(v[2 * (80 * r + c) + 1]);
  }

  lemma Nibbles(b: Byte)
    ensures b == b % 16 + 16 * (b / 16)
  {
  }

  ghost predicate Shows(v: seq<Byte>, p: Page) {
    && |v| == 2 * VGA_WIDTH * VGA_HEIGHT
    && forall r, c :: 0 <= r < VGA_HEIGHT && 0 <= c < VGA_WIDTH ==> Shown(v, r, c) == Window(p, r)[c]
  }

  /** The screen row the cursor is in. */
  function CursorRow(p: Page): (r: nat)
    requires Proper(p)
    ensures r < VGA_HEIGHT
  {
    if |p.rows| <= VGA_HEIGHT then |p.rows| - 1 else VGA_HEIGHT - 1
  }

  /** Memory after one cell is stored, white on black. */
  function WithCell(v: seq<Byte>, i: nat, c: Byte): (w: seq<Byte>)
    requires 2 * i + 1 < |v|
    ensures |w| == |v|
  {
    v[2 * i := c][2 * i + 1 := WHITE]
  }

  lemma CellIndex(r: nat, c: nat, r': nat, c': nat)
    requires c < VGA_WIDTH && c' < VGA_WIDTH
    ensures c + r * VGA_WIDTH == c' + r' * VGA_WIDTH <==> r == r' && c == c'
  {
  }

  lemma StoredCell(v: seq<Byte>, r0: nat, c0: nat, x: Byte, r: nat, c: nat)
    requires |v| == 2 * VGA_WIDTH * VGA_HEIGHT && r0 < VGA_HEIGHT && c0 < VGA_WIDTH && r < VGA_HEIGHT && c < VGA_WIDTH
    ensures Shown(WithCell(v, c0 + r0 * VGA_WIDTH, x), r, c) ==
      if r == r0 && c == c0 then Cell(x, WHITE, BLACK) else Shown(v, r, c)
  {
    CellIndex(r, c, r0, c0);
  }

  /** Storing a cell in the cursor's row is storing it in the last row of the page. */
  lemma SetLastShows(v: seq<Byte>, v': seq<Byte>, p: Page, col: nat, cell: Cell)
    requires Proper(p) && Shows(v, p) && col < VGA_WIDTH && |v'| == |v|
    requires forall r, c :: 0 <= r < VGA_HEIGHT && 0 <= c < VGA_WIDTH ==>
      Shown(v', r, c) == if r == CursorRow(p) && c == col then cell else Shown(v, r, c)
    ensures Shows(v', SetLast(p, col, cell))
  {
    hide Shown;
    var q := SetLast(p, col, cell);
    forall r, c | 0 <= r < VGA_HEIGHT && 0 <= c < VGA_WIDTH ensures Shown(v', r, c) == Window(q, r)[c] {
      assert Shown(v, r, c) == Window(p, r)[c];
    }
  }

  /** While the page is shorter than the screen, a new row shows already. */
  lemma NewRowShows(v: seq<Byte>, p: Page)
    requires Proper(p) && Shows(v, p) && |p.rows| < VGA_HEIGHT
    ensures Shows(v, NewRow(p))
  {
    hide Shown;
    var q := NewRow(p);
    forall r, c | 0 <= r < VGA_HEIGHT && 0 <= c < VGA_WIDTH ensures Shown(v, r, c) == Window(q, r)[c] {
      assert Shown(v, r, c) == Window(p, r)[c];
    }
  }

  /** Otherwise the screen moves up a row and the last one is cleared. */
  lemma ScrollShows(v: seq<Byte>, v': seq<Byte>, p: Page)
    requires Proper(p) && Shows(v, p) && |p.rows| >= VGA_HEIGHT && |v'| == |v|
    requires forall r, c :: 0 <= r < VGA_HEIGHT && 0 <= c < VGA_WIDTH ==>
      Shown(v', r, c) == if r == VGA_HEIGHT - 1 then Cell(SPACE, WHITE, BLACK) else Shown(v, r + 1, c)
    ensures Shows(v', NewRow(p))
  {
    hide Shown;
    var q := NewRow(p);
    forall r, c | 0 <= r < VGA_HEIGHT && 0 <= c < VGA_WIDTH ensures Shown(v', r, c) == Window(q, r)[c] {
      if r < VGA_HEIGHT - 1 {
        assert Shown(v, r + 1, c) == Window(p, r + 1)[c];
      }
    }
  }

  const SCROLLED := 2 * VGA_WIDTH * (VGA_HEIGHT - 1)

  /** The overlapping copy moves every row but the first up by one. */
  lemma CopiedRow(v: seq<Byte>, r: nat, c: nat)
    requires |v| == 2 * VGA_WIDTH * VGA_HEIGHT && r < VGA_HEIGHT - 1 && c < VGA_WIDTH
    ensures Shown(CopyUp(v, 0, 2 * VGA_WIDTH, SCROLLED), r, c) == Shown(v, r + 1, c)
  {
    hide CopyUp;
    CopyUpMoves(v, 0, 2 * VGA_WIDTH, SCROLLED);
  }

  class Vga {
    const term: array<Byte>
    var row: nat
    var col: nat
    ghost var page: Page

    ghost predicate Valid()
      reads this, term
    {
      && Proper(page) && Shows(term[..], page)
      && row == CursorRow(page) && col == page.col
    }

    constructor ()
      ensures Valid() && fresh(term) && page == Cleared()
    {
      term := new Byte[2 * VGA_WIDTH * VGA_HEIGHT];
      row, col, page := 0, 0, Cleared();
      new;
      Clear();
    }

    /** Stores a character with its colours, field by field. */
    method SetCell(index: nat, c: Byte)
      requires 2 * index + 1 < term.Length
      modifies term
      ensures term[..] == WithCell(old(term[..]), index, c)
    {
      term[2 * index] := c;
      term[2 * index + 1] := term[2 * index + 1] / 16 * 16 + WHITE;
      term[2 * index + 1] := term[2 * index + 1] % 16 + 16 * BLACK;
    }

    method Clear()
      requires term.Length == 2 * VGA_WIDTH * VGA_HEIGHT
      modifies this, term
      ensures Valid() && page == Cleared()
    {
      hide Shown, WithCell;
      for i := 0 to VGA_WIDTH * VGA_HEIGHT
        invariant forall r, c :: 0 <= r < VGA_HEIGHT && 0 <= c < VGA_WIDTH && c + r * VGA_WIDTH < i ==>
          Shown(term[..], r, c) == Cell(SPACE, WHITE, BLACK)
      {
        ghost var v := term[..];
        SetCell(i, SPACE);
        ClearedCells(v, i);
      }
      row, col, page := 0, 0, Cleared();
    }

    /** Clears the last row. */
    method ClearLastRow()
      requires term.Length == 2 * VGA_WIDTH * VGA_HEIGHT && row == VGA_HEIGHT - 1
      modifies term
      ensures forall r, c :: 0 <= r < VGA_HEIGHT && 0 <= c < VGA_WIDTH ==>
        Shown(term[..], r, c) == if r == row then Cell(SPACE, WHITE, BLACK) else Shown(old(term[..]), r, c)
    {
      hide Shown, WithCell;
      ghost var v0 := term[..];
      for i := 0 to VGA_WIDTH
        invariant forall r, c :: 0 <= r < VGA_HEIGHT && 0 <= c < VGA_WIDTH ==>
          Shown(term[..], r, c) == if r == row && c < i then Cell(SPACE, WHITE, BLACK) else Shown(v0, r, c)
      {
        ghost var v := term[..];
        SetCell(i + row * VGA_WIDTH, SPACE);
        forall r, c | 0 <= r < VGA_HEIGHT && 0 <= c < VGA_WIDTH
          ensures Shown(term[..], r, c) == if r == row && c == i then Cell(SPACE, WHITE, BLACK) else Shown(v, r, c)
        {
          StoredCell(v, row, i, SPACE, r, c);
        }
      }
    }

    method PutChar(c: Byte)
      requires Valid()
      modifies this, term
      ensures Valid() && page == Put(old(page), c)
    {
      hide Shown, WithCell, CopyUp, Shows;
      ghost var p := page;
      ShowsSize(term[..], p);
      if c == RETURN {
        col := 0;
        page := Put(p, c);
        SameRows(term[..], p, page);
        return;
      } else if c == BACKSPACE {
        if col > 0 {
          col := col - 1;
          ghost var v := term[..];
          term[2 * (row * VGA_WIDTH + col)] := SPACE;
          page := Put(p, c);
          Backspaced(v, term[..], p);
        }
        return;
      }
      if c == NEWLINE {
        col := 0;
        row := row + 1;
      }
      if col == VGA_WIDTH {
        col := 0;
        row := row + 1;
      }
      if row == VGA_HEIGHT {
        ghost var v := term[..];
        Memcpy(term, 0, 2 * VGA_WIDTH, SCROLLED);
        row := row - 1;
        ghost var v1 := term[..];
        ClearLastRow();
        Scrolled(v, v1, term[..], p);
        page := NewRow(p);
      } else if c == NEWLINE || p.col == VGA_WIDTH {
        NewRowShows(term[..], p);
        page := NewRow(p);
      }
      if c != NEWLINE {
        ghost var v := term[..];
        SetCell(col + row * VGA_WIDTH, c);
        Printed(v, term[..], page, c);
        page := SetLast(page, col, Cell(c, WHITE, BLACK)).(col := col + 1);
        col := col + 1;
      }
    }
  }

  lemma ShowsSize(v: seq<Byte>, p: Page)
    requires Shows(v, p)
    ensures |v| == 2 * VGA_WIDTH * VGA_HEIGHT
  {
    hide Shown;
  }

  lemma SameRows(v: seq<Byte>, p: Page, q: Page)
    requires Shows(v, p) && q.rows == p.rows
    ensures Shows(v, q)
  {
    hide Shown;
    assert forall r :: 0 <= r < VGA_HEIGHT ==> Window(p, r) == Window(q, r);
  }

  lemma ClearedCells(v: seq<Byte>, i: nat)
    requires |v| == 2 * VGA_WIDTH * VGA_HEIGHT && i < VGA_WIDTH * VGA_HEIGHT
    requires forall r, c :: 0 <= r < VGA_HEIGHT && 0 <= c < VGA_WIDTH && c + r * VGA_WIDTH < i ==>
      Shown(v, r, c) == Cell(SPACE, WHITE, BLACK)
    ensures forall r, c :: 0 <= r < VGA_HEIGHT && 0 <= c < VGA_WIDTH && c + r * VGA_WIDTH < i + 1 ==>
      Shown(WithCell(v, i, SPACE), r, c) == Cell(SPACE, WHITE, BLACK)
  {
    hide Shown, WithCell;
    var r0, c0 := i / VGA_WIDTH, i % VGA_WIDTH;
    forall r, c | 0 <= r < VGA_HEIGHT && 0 <= c < VGA_WIDTH && c + r * VGA_WIDTH < i + 1
      ensures Shown(WithCell(v, i, SPACE), r, c) == Cell(SPACE, WHITE, BLACK)
    {
      StoredCell(v, r0, c0, SPACE, r, c);
      CellIndex(r, c, r0, c0);
    }
  }

  lemma Backspaced(v: seq<Byte>, v': seq<Byte>, p: Page)
    requires Proper(p) && Shows(v, p) && p.col > 0
    requires 2 * (CursorRow(p) * VGA_WIDTH + (p.col - 1)) < |v|
    requires v' == v[2 * (CursorRow(p) * VGA_WIDTH + (p.col - 1)) := SPACE]
    ensures Shows(v', Put(p, BACKSPACE))
  {
    var r0, c0 := CursorRow(p), p.col - 1;
    forall r, c | 0 <= r < VGA_HEIGHT && 0 <= c < VGA_WIDTH
      ensures Shown(v', r, c) == if r == r0 && c == c0 then Shown(v, r0, c0).(c := SPACE) else Shown(v, r, c)
    {
      CellIndex(r, c, r0, c0);
    }
    hide Shown;
    CursorCell(v, p, c0);
    SetLastShows(v, v', p, c0, Shown(v, r0, c0).(c := SPACE));
    SameRows(v', SetLast(p, c0, Shown(v, r0, c0).(c := SPACE)), Put(p, BACKSPACE));
  }

  lemma CursorCell(v: seq<Byte>, p: Page, c: nat)
    requires Proper(p) && Shows(v, p) && c < VGA_WIDTH
    ensures Shown(v, CursorRow(p), c) == p.rows[|p.rows| - 1][c]
  {
    hide Shown;
    assert Shown(v, CursorRow(p), c) == Window(p, CursorRow(p))[c];
  }

  lemma Scrolled(v: seq<Byte>, v1: seq<Byte>, v2: seq<Byte>, p: Page)
    requires Proper(p) && Shows(v, p) && |p.rows| >= VGA_HEIGHT && |v| == |v2| == 2 * VGA_WIDTH * VGA_HEIGHT
    requires v1 == CopyUp(v, 0, 2 * VGA_WIDTH, SCROLLED)
    requires forall r, c :: 0 <= r < VGA_HEIGHT && 0 <= c < VGA_WIDTH ==>
      Shown(v2, r, c) == if r == VGA_HEIGHT - 1 then Cell(SPACE, WHITE, BLACK) else Shown(v1, r, c)
    ensures Shows(v2, NewRow(p))
  {
    hide Shown, CopyUp, Shows;
    forall r, c | 0 <= r < VGA_HEIGHT && 0 <= c < VGA_WIDTH
      ensures Shown(v2, r, c) == if r == VGA_HEIGHT - 1 then Cell(SPACE, WHITE, BLACK) else Shown(v, r + 1, c)
    {
      if r < VGA_HEIGHT - 1 {
        CopiedRow(v, r, c);
      }
    }
    ScrollShows(v, v2, p);
  }

  lemma Printed(v: seq<Byte>, v': seq<Byte>, p: Page, x: Byte)
    requires Proper(p) && Shows(v, p) && p.col < VGA_WIDTH && |v| == 2 * VGA_WIDTH * VGA_HEIGHT
    requires v' == WithCell(v, p.col + CursorRow(p) * VGA_WIDTH, x)
    ensures Shows(v', SetLast(p, p.col, Cell(x, WHITE, BLACK)).(col := p.col + 1))
  {
    hide Shown, WithCell, Shows;
    forall r, c | 0 <= r < VGA_HEIGHT && 0 <= c < VGA_WIDTH
      ensures Shown(v', r, c) == if r == CursorRow(p) && c == p.col then Cell(x, WHITE, BLACK) else Shown(v, r, c)
    {
      StoredCell(v, CursorRow(p), p.col, x, r, c);
    }
    SetLastShows(v, v', p, p.col, Cell(x, WHITE, BLACK));
    var q := SetLast(p, p.col, Cell(x, WHITE, BLACK));
    SameRows(v', q, q.(col := p.col + 1));
  }
}
