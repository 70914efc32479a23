/** netpbm_get_token: reads the next header token of a PBM/PGM/PPM file.
    The file is a sequence of characters read through a cursor; `getc` at
    the end yields EOF and leaves the cursor there. Whitespace and `#`
    comments (to the end of the line) are skipped, then characters are
    copied until whitespace, `#` or EOF, or until the buffer of `len`
    characters holds `len - 1` of them. The character that stops the copy
    has been read and is lost, except `#`, which is pushed back. */
module NetpbmToken {

  /** What `getc` returns: a character, or EOF. */
  datatype Got = Eof | Ch(ch: char)

  /** isspace in the C locale. */
  predicate IsSpace(ch: char)
  {
    ch == ' ' || ch == '\t' || ch == '\n' || ch == '\U{0B}' || ch == '\U{0C}' || ch == '\r'
  }

  /** A character that ends a token. */
  predicate Stops(ch: char)
  {
    IsSpace(ch) || ch == '#'
  }

  /** The cursor after a comment whose text starts at i: past the first
      newline, or at the end of the file. */
  function LineEnd(f: seq<char>, i: int): (r: int)
    requires 0 <= i <= |f|
    ensures i <= r <= |f|
    ensures r == |f| || (i < r && f[r - 1] == '\n')
    ensures forall j :: i <= j < r - 1 ==> f[j] != '\n'
    decreases |f| - i
  {
    if i == |f| then |f| else if f[i] == '\n' then i + 1 else LineEnd(f, i + 1)
  }

  /** Where the token begins, once blanks and comments from i on are
      skipped; `|f|` when the file ends first. */
  function TokenStart(f: seq<char>, i: int): (r: int)
    requires 0 <= i <= |f|
    ensures i <= r <= |f|
    ensures r < |f| ==> !Stops(f[r])
    decreases |f| - i
  {
    if i == |f| then |f|
    else if IsSpace(f[i]) then TokenStart(f, i + 1)
    else if f[i] == '#' then TokenStart(f, LineEnd(f, i + 1))
    else i
  }

  /** Where the copy of a token begun at st stops, the copy having reached
      e: the first stopping character or EOF after st, or the point where
      `len - 1` characters have been copied. */
  function TokenEnd(f: seq<char>, st: int, e: int, len: int): (r: int)
    requires 0 <= st < e <= |f| && e - st <= len - 1
    ensures e <= r <= |f| && r - st <= len - 1
    ensures forall j :: e <= j < r ==> !Stops(f[j])
    ensures r == |f| || Stops(f[r]) || r - st == len - 1
    decreases |f| - e
  {
    if e == |f| || Stops(f[e]) || e - st == len - 1 then e
    else TokenEnd(f, st, e + 1, len)
  }

  /** The cursor after the copy stopped at e: the stopping character has
      been read, but a `#` is pushed back. */
  function After(f: seq<char>, e: int): int
    requires 0 <= e <= |f|
  {
    if e == |f| then |f| else if f[e] == '#' then e else e + 1
  }

  /** getc. */
  method Getc(f: seq<char>, cur: int) returns (c: Got, cur': int)
    requires 0 <= cur <= |f|
    ensures cur == |f| ==> c == Eof && cur' == |f|
    ensures cur < |f| ==> c == Ch(f[cur]) && cur' == cur + 1
  {
    if cur == |f| {
      c, cur' := Eof, cur;
    } else {
      c, cur' := Ch(f[cur]), cur + 1;
    }
  }

  /** The whitespace loop: reads characters until one is not whitespace. */
  method SkipSpace(f: seq<char>, pos: int) returns (c: Got, cur: int)
    requires 0 <= pos <= |f|
    ensures 0 <= cur <= |f|
    ensures c == Eof ==> cur == |f| && TokenStart(f, pos) == |f|
    ensures c.Ch? ==> 0 < cur && c.ch == f[cur - 1] && !IsSpace(c.ch)
    ensures c.Ch? ==> pos < cur && TokenStart(f, cur - 1) == TokenStart(f, pos)
  {
    c, cur := Getc(f, pos);
    while c.Ch? && IsSpace(c.ch)
      invariant pos <= cur <= |f|
      invariant c == Eof ==> cur == |f| && TokenStart(f, pos) == |f|
      invariant c.Ch? ==> pos < cur && c.ch == f[cur - 1] && TokenStart(f, cur - 1) == TokenStart(f, pos)
      decreases |f| - cur + (if c.Ch? then 1 else 0)
    {
      c, cur := Getc(f, cur);
    }
  }

  /** The comment loop: reads characters until a newline or EOF. */
  method SkipComment(f: seq<char>, pos: int) returns (c: Got, cur: int)
    requires 0 <= pos <= |f|
    ensures pos <= cur <= |f|
    ensures c == Eof ==> cur == |f| && LineEnd(f, pos) == |f|
    ensures c.Ch? ==> c.ch == '\n' && cur == LineEnd(f, pos) && pos < cur
  {
    c, cur := Getc(f, pos);
    while c.Ch? && c.ch != '\n'
      invariant pos <= cur <= |f|
      invariant c == Eof ==> cur == |f| && LineEnd(f, pos) == |f|
      invariant c.Ch? ==> pos < cur && c.ch == f[cur - 1] && LineEnd(f, cur - 1) == LineEnd(f, pos)
      decreases |f| - cur + (if c.Ch? then 1 else 0)
    {
      c, cur := Getc(f, cur);
    }
  }

  /** The copy loop, from the first token character, already read. */
  method CopyToken(f: seq<char>, st: int, len: int) returns (tok: seq<char>, cur: int)
    requires 0 <= st < |f| && 2 <= len
    ensures tok == f[st..TokenEnd(f, st, st + 1, len)] && cur == After(f, TokenEnd(f, st, st + 1, len))
  {
    ghost var e := st + 1;
    var c: Got;
    tok := [f[st]];
    c, cur := Getc(f, st + 1);
    while c.Ch? && !Stops(c.ch) && |tok| < len - 1
      invariant st < e <= |f| && e - st <= len - 1 && tok == f[st..e]
      invariant TokenEnd(f, st, e, len) == TokenEnd(f, st, st + 1, len)
      invariant c == Eof ==> e == |f| && cur == |f|
      invariant c.Ch? ==> e < |f| && c.ch == f[e] && cur == e + 1
      decreases |f| - e
    {
      tok := tok + [c.ch];
      e := e + 1;
      c, cur := Getc(f, cur);
    }
    if c == Ch('#') {
      cur := cur - 1;
    }
  }

  /** netpbm_get_token, from cursor pos with a buffer of len characters
      (one is kept for the terminating NUL). Returns the token and the new
      cursor. */
  method GetToken(f: seq<char>, pos: int, len: int) returns (tok: seq<char>, cur: int)
    requires 0 <= pos <= |f| && 2 <= len
    ensures var st := TokenStart(f, pos);
      st == |f| ==> tok == [] && cur == |f|
    ensures var st := TokenStart(f, pos);
      st < |f| ==> tok == f[st..TokenEnd(f, st, st + 1, len)] && cur == After(f, TokenEnd(f, st, st + 1, len))
  {
    ghost var start := TokenStart(f, pos);
    cur := pos;
    var c: Got;
    while true
      invariant 0 <= cur <= |f| && TokenStart(f, cur) == start
      decreases |f| - cur
    {
      c, cur := SkipSpace(f, cur);
      if c != Ch('#') {
        break;
      }
      c, cur := SkipComment(f, cur);
      if c == Eof {
        break;
      }
    }
    tok := [];
    if c != Eof {
      tok, cur := CopyToken(f, cur - 1, len);
    }
  }

  /** What a call promises: a token of 1 to `len - 1` characters, none of
      them whitespace or `#`, which reaches the next stopping character
      unless the buffer filled; an empty token only when the rest of the
      file is blanks and comments; and, unless the file is exhausted, the
      cursor moves forward, so repeated calls read the whole header. */
  lemma TokenOutcome(f: seq<char>, pos: int, len: int)
    requires 0 <= pos <= |f| && 2 <= len
    ensures var st := TokenStart(f, pos);
      st < |f| ==> var e := TokenEnd(f, st, st + 1, len);
        var tok := f[st..e];
        1 <= |tok| <= len - 1 && (forall j :: 0 <= j < |tok| ==> !Stops(tok[j])) &&
        (|tok| < len - 1 ==> e == |f| || Stops(f[e])) &&
        pos < After(f, e) <= |f|
  {
    var st := TokenStart(f, pos);
    if st < |f| {
      var e := TokenEnd(f, st, st + 1, len);
      var tok := f[st..e];
      forall j | 0 <= j < |tok|
        ensures !Stops(tok[j])
      {
        assert tok[j] == f[st + j];
      }
    }
  }
}
