/** vsnprintf of lib/sprintf.c against a pure rendering of the format. */
module Format {
  import opened Words
  import opened Numerals
  import opened Strings

  /** One variadic argument: a 32-bit word, and the characters before the terminating zero of
      what it points to, when read as a string. Formats are given without their terminator. */
  datatype Arg = Arg(word: Int32, text: Option<string>)

  predicate Consumes(c: char) { c in {'d', 'x', 'c', 's'} }

  /** What a conversion that takes an argument prints. */
  function Piece(c: char, a: Arg): string
    requires Consumes(c)
  {
    match c
    case 'd' => ItoaText(a.word)
    case 'x' => Digits(if a.word < 0 then a.word + WORD else a.word, 16)
    case 'c' => [(a.word % 256) as char]
    case _ => if a.text.None? then "(null)" else a.text.value
  }

  /** What any other character after a percent sign prints. */
  function Literal(c: char): string { if c == '%' then "%" else ['%', c] }

  /** Arguments the format takes. */
  function Needed(fmt: string): nat {
    if fmt == [] then 0
    else if fmt[0] != '%' then Needed(fmt[1..])
    else if |fmt| == 1 then 0
    else (if Consumes(fmt[1]) then 1 else 0) + Needed(fmt[2..])
  }

  /** The format ends in a percent sign that starts a conversion. */
  predicate LoneTail(fmt: string) {
    if fmt == [] then false
    else if fmt[0] != '%' then LoneTail(fmt[1..])
    else |fmt| == 1 || LoneTail(fmt[2..])
  }

  /** The whole output, up to a lone percent sign at the end. */
  function Render(fmt: string, args: seq<Arg>): string
    requires Needed(fmt) <= |args|
    decreases |fmt|
  {
    if fmt == [] then []
    else if fmt[0] != '%' then [fmt[0]] + Render(fmt[1..], args)
    else if |fmt| == 1 then []
    else if Consumes(fmt[1]) then Piece(fmt[1], args[0]) + Render(fmt[2..], args[1..])
    else Literal(fmt[1]) + Render(fmt[2..], args)
  }

  /** Overread: the format pointer has run past the terminating zero. */
  datatype Outcome = Length(n: nat) | Overread

  /** s with every percent sign doubled. */
  function Escape(s: string): string {
    if s == [] then [] else (if s[0] == '%' then "%%" else [s[0]]) + Escape(s[1..])
  }

  /** Every string can be printed: doubling its percent signs gives a format that renders it. */
  lemma {:induction false} RenderEscape(s: string, args: seq<Arg>)
    ensures Needed(Escape(s)) == 0 && !LoneTail(Escape(s)) && Render(Escape(s), args) == s
  {
    if s != [] {
      RenderEscape(s[1..], args);
      var e := Escape(s);
      if s[0] == '%' {
        assert e[2..] == Escape(s[1..]) && e[0] == '%' && e[1] == '%';
      } else {
        assert e[1..] == Escape(s[1..]);
      }
    }
  }

  // ---- What each conversion prints ---------------------------------------------------

  lemma {:induction false} OneConversion(c: char, a: Arg)
    requires Consumes(c)
    ensures Needed(['%', c]) == 1 && !LoneTail(['%', c]) && Render(['%', c], [a]) == Piece(c, a)
  {
    var f := ['%', c];
    assert f[2..] == [] && [a][1..] == [];
    assert Render(f, [a]) == Piece(c, a) + Render([], []);
  }

  /** %d prints what atoi reads back as the argument, for every integer but the smallest. */
  lemma {:induction false} PrintsDecimal(n: Int32, t: Option<string>)
    ensures Needed("%d") == 1 && (AtoiText(Render("%d", [Arg(n, t)])) == n <==> n != INT_MIN)
    ensures n != INT_MIN ==> Canonical(Unsigned(Render("%d", [Arg(n, t)])), 10)
  {
    assert "%d" == ['%', 'd'];
    OneConversion('d', Arg(n, t));
    ItoaAtoi(n);
    if n != INT_MIN { ItoaCanonical(n); }
  }

  /** %x prints the upper-case hexadecimal numeral of the argument modulo 2^32. */
  lemma {:induction false} PrintsHexadecimal(n: Int32, t: Option<string>)
    ensures Needed("%x") == 1
    ensures var h := Render("%x", [Arg(n, t)]);
      && Canonical(h, 16) && Value(h, 16) == (if n < 0 then n + WORD else n) && |h| <= 8
      && forall k :: 0 <= k < |h| ==> h[k] in "0123456789ABCDEF"
  {
    assert "%x" == ['%', 'x'];
    OneConversion('x', Arg(n, t));
    var u: nat := if n < 0 then n + WORD else n;
    DigitsCanonical(u, 16);
    HexLength(u);
    DigitsInTable(u, 16);
  }

  /** %c prints the character whose code is the low byte of the argument. */
  lemma {:induction false} PrintsCharacter(n: Int32, t: Option<string>)
    ensures Needed("%c") == 1
    ensures var p := Render("%c", [Arg(n, t)]);
      |p| == 1 && p[0] as int < 256 && (n - p[0] as int) % 256 == 0
  {
    assert "%c" == ['%', 'c'];
    OneConversion('c', Arg(n, t));
  }

  /** %s prints the string, or a stand-in for a null pointer. */
  lemma {:induction false} PrintsString(n: Int32, t: string)
    ensures Needed("%s") == 1 && Render("%s", [Arg(n, Some(t))]) == t && Render("%s", [Arg(n, None)]) == "(null)"
  {
    assert "%s" == ['%', 's'];
    OneConversion('s', Arg(n, Some(t)));
    OneConversion('s', Arg(n, None));
  }

  /** Any other letter prints as it stands, percent sign included, and takes no argument. */
  lemma {:induction false} PrintsUnknown(c: char)
    requires c !in {'d', 'x', 'c', 's', '%'}
    ensures Needed(['%', c]) == 0 && !LoneTail(['%', c]) && Render(['%', c], []) == ['%', c]
  {
    var f := ['%', c];
    assert f[2..] == [];
  }

  /** The copying loops: write s from position k until it or the room before end is used up. */
  method Put(buf: array<char>, k: nat, end: nat, s: string) returns (k': nat)
    requires k <= end <= buf.Length
    modifies buf
    ensures k' == (if k + |s| <= end then k + |s| else end)
    ensures buf[..k'] == old(buf[..k]) + s[..k' - k] && buf[end..] == old(buf[end..])
  {
    k' := k;
    var i := 0;
    while i < |s| && k' < end
      invariant i <= |s| && k' == k + i <= end
      invariant buf[..k'] == old(buf[..k]) + s[..i] && buf[end..] == old(buf[end..])
    {
      ghost var before := buf[..k'];
      buf[k'] := s[i];
      assert buf[..k' + 1] == before + [s[i]] && s[..i + 1] == s[..i] + [s[i]];
      k' := k' + 1;
      i := i + 1;
    }
  }

  /** The output so far, with what is still to come, is the whole rendering; while there is
      room, what is to come is the rendering of the rest of the format. */
  ghost predicate Progress(fmt: string, args: seq<Arg>, out: string, rest: string, room: bool, i: nat, j: nat) {
    && Needed(fmt) <= |args| && i <= |fmt| && j <= |args|
    && out + rest == Render(fmt, args)
    && (room ==> Needed(fmt[i..]) <= |args| - j && rest == Render(fmt[i..], args[j..]) && LoneTail(fmt[i..]) == LoneTail(fmt))
  }

  /** One format directive: what it prints, and how much of format and arguments it takes. */
  ghost function Directive(fmt: string, args: seq<Arg>): (string, nat, nat)
    requires fmt != [] && fmt != "%" && Needed(fmt) <= |args|
  {
    if fmt[0] != '%' then ([fmt[0]], 1, 0)
    else if Consumes(fmt[1]) then (Piece(fmt[1], args[0]), 2, 1)
    else (Literal(fmt[1]), 2, 0)
  }

  lemma {:induction false} RenderStep(fmt: string, args: seq<Arg>)
    requires fmt != [] && fmt != "%" && Needed(fmt) <= |args|
    ensures var (p, di, dj) := Directive(fmt, args);
      && di <= |fmt| && dj <= |args| && Needed(fmt) == dj + Needed(fmt[di..])
      && Render(fmt, args) == p + Render(fmt[di..], args[dj..]) && LoneTail(fmt) == LoneTail(fmt[di..])
  {
  }

  lemma {:induction false} NeededConcat(a: string, b: string)
    requires !LoneTail(a)
    ensures Needed(a + b) == Needed(a) + Needed(b) && LoneTail(a + b) == LoneTail(b)
    decreases |a|
  {
    if a == [] {
      assert a + b == b;
    } else if a[0] != '%' {
      assert (a + b)[1..] == a[1..] + b;
      NeededConcat(a[1..], b);
    } else {
      assert (a + b)[2..] == a[2..] + b;
      NeededConcat(a[2..], b);
    }
  }

  /** Rendering is compositional: a format that does not end in a lone percent sign is rendered
      before whatever follows it, each part with its own arguments. */
  lemma {:induction false} RenderConcat(a: string, b: string, args: seq<Arg>)
    requires !LoneTail(a) && Needed(a) + Needed(b) <= |args|
    ensures Needed(a + b) <= |args| && LoneTail(a + b) == LoneTail(b)
    ensures Render(a + b, args) == Render(a, args) + Render(b, args[Needed(a)..])
    decreases |a|
  {
    hide Render, Needed, LoneTail, Piece, Literal;
    NeededConcat(a, b);
    Ends();
    if a == [] {
      assert a + b == b && args[0..] == args;
    } else {
      assert a != "%";
      RenderStep(a, args);
      RenderStep(a + b, args);
      var (p, di, dj) := Directive(a, args);
      assert (a + b)[di..] == a[di..] + b;
      RenderConcat(a[di..], b, args[dj..]);
      assert args[dj..][Needed(a[di..])..] == args[Needed(a)..];
    }
  }

  lemma {:induction false} Ends()
    ensures forall args: seq<Arg> :: Render("", args) == ""
    ensures !LoneTail("") && Needed("") == 0 && LoneTail("%")
  {
  }

  lemma {:induction false} Advance(fmt: string, args: seq<Arg>, out: string, rest: string, i: nat, j: nat, end: nat)
    requires Progress(fmt, args, out, rest, true, i, j) && fmt[i..] != [] && fmt[i..] != "%" && |out| <= end
    ensures var (p, di, dj) := Directive(fmt[i..], args[j..]);
            var n := if |out| + |p| <= end then |p| else end - |out|;
      && n <= |p| && n <= |rest|
      && Progress(fmt, args, out + p[..n], rest[n..], |out| + n < end, i + di, j + dj)
  {
    hide Render, Needed, LoneTail, Directive;
    var f, a := fmt[i..], args[j..];
    RenderStep(f, a);
    var (p, di, dj) := Directive(f, a);
    var n := if |out| + |p| <= end then |p| else end - |out|;
    assert f[di..] == fmt[i + di..] && a[dj..] == args[j + dj..];
    assert out + rest == (out + p[..n]) + rest[n..];
  }

  /** A conversion as the switch of vsnprintf performs it, with room for at least one byte. */
  method Convert(buf: array<char>, k: nat, end: nat, c: char, args: seq<Arg>, j: nat) returns (k': nat, j': nat)
    requires k < end < buf.Length && j <= |args| && (Consumes(c) ==> j < |args|)
    modifies buf
    ensures j' == if Consumes(c) then j + 1 else j
    ensures var p := if Consumes(c) then Piece(c, args[j]) else Literal(c);
      && k' == (if k + |p| <= end then k + |p| else end)
      && buf[..k'] == old(buf[..k]) + p[..k' - k] && buf[end..] == old(buf[end..])
  {
    hide Digits, ItoaText;
    k', j' := k, j;
    if c == 'd' {
      var digits := new char[32];
      var len := Itoa(args[j].word, digits);
      k' := Put(buf, k, end, digits[..len]);
      j' := j + 1;
    } else if c == 'x' {
      var digits := new char[32];
      var len := Itoh(args[j].word, digits);
      k' := Put(buf, k, end, digits[..len]);
      j' := j + 1;
    } else if c == 'c' {
      buf[k] := (args[j].word % 256) as char;
      k', j' := k + 1, j + 1;
    } else if c == 's' {
      k' := Put(buf, k, end, if args[j].text.None? then "(null)" else args[j].text.value);
      j' := j + 1;
    } else if c == '%' {
      k' := Put(buf, k, end, "%");
    } else {
      k' := Put(buf, k, end, ['%', c]);
    }
  }

  /** Characters vsnprintf leaves itself before the terminator, for a buffer at address `at`: its
      end pointer is one before the buffer for size 0, and wraps to below it for a size that
      reaches past the last address; both ways there is no room at all. */
  function Room(at: Word, size: Word): nat {
    if size == 0 || at + size - 1 >= WORD then 0 else size - 1
  }

  /** vsnprintf writes as much of the rendering as there is room for, ends it with a zero, and
      returns the length written; except that it runs past the end of the format, exactly when
      that ends in a lone percent sign and there is room left on reaching it. The terminator is
      written whatever the size: for size 0 that is one past what the caller allowed. */
  method Vsnprintf(buf: array<char>, at: Word, size: Word, fmt: string, args: seq<Arg>) returns (r: Outcome)
    requires 0 < at && at + buf.Length <= WORD && Room(at, size) < buf.Length
    requires Needed(fmt) <= |args|
    modifies buf
    ensures r.Overread? <==> LoneTail(fmt) && |Render(fmt, args)| < Room(at, size)
    ensures r.Length? ==>
      var text := Render(fmt, args);
      && r.n == (if |text| < Room(at, size) then |text| else Room(at, size))
      && buf[..r.n] == text[..r.n] && buf[r.n] == NUL
    ensures r.Length? && 1 <= size && at + size <= WORD && r.n < |Render(fmt, args)| ==> r.n == size - 1
    ensures buf[Room(at, size) + 1..] == old(buf[Room(at, size) + 1..])
    ensures size <= buf.Length ==> (buf[size..] == old(buf[size..]) <==> size >= 1 || old(buf[0]) == NUL)
  {
    hide Render, Needed, LoneTail, Piece, Literal, Progress;
    ghost var room := Room(at, size);
    var endAddr := (at + size - 1) % WORD;
    EndAddress(at, size, buf.Length);
    var k: nat, i: nat, j: nat := 0, 0, 0;
    ghost var rest := Render(fmt, args);
    Start(fmt, args, buf[..0], room);
    while i < |fmt| && at + k < endAddr
      invariant i <= |fmt| && j <= |args| && k <= room
      invariant Progress(fmt, args, buf[..k], rest, k < room, i, j)
      invariant buf[room..] == old(buf[room..])
      decreases |fmt| - i
    {
      var end := endAddr - at;
      ghost var out, d := buf[..k], 0;
      Here(fmt, args, out, rest, i, j);
      if fmt[i] != '%' {
        Advance(fmt, args, out, rest, i, j, end);
        buf[k] := fmt[i];
        k, i, d := k + 1, i + 1, 1;
        assert [fmt[i - 1]][..1] == [fmt[i - 1]] && buf[..k] == out + [fmt[i - 1]];
      } else if i + 1 == |fmt| {
        Lone(fmt, args, out, rest, i, j);
        k := Put(buf, k, end, ['%', NUL]);
        TailKept(old(buf[..]), buf[..], at, size);
        return Overread;
      } else {
        Advance(fmt, args, out, rest, i, j, end);
        ghost var before := k;
        k, j := Convert(buf, k, end, fmt[i + 1], args, j);
        i, d := i + 2, k - before;
      }
      rest := rest[d..];
    }
    Finish(fmt, args, buf[..k], rest, i, j, room);
    ghost var before := buf[..];
    buf[k] := NUL;
    TailEnded(old(buf[..]), before, buf[..], k, at, size);
    assert buf[..k] == before[..k];
    return Length(k);
  }

  /** Nothing from the terminator's place on was written. */
  lemma {:induction false} TailKept(was: seq<char>, now: seq<char>, at: Word, size: Word)
    requires |now| == |was| && 0 < Room(at, size) < |was| && now[Room(at, size)..] == was[Room(at, size)..]
    ensures now[Room(at, size) + 1..] == was[Room(at, size) + 1..]
    ensures size >= 1 && (size <= |was| ==> now[size..] == was[size..])
  {
    var room := Room(at, size);
    assert now[room + 1..] == now[room..][1..] && was[room + 1..] == was[room..][1..];
  }

  /** Only the terminator was, at k. */
  lemma {:induction false} TailEnded(was: seq<char>, before: seq<char>, now: seq<char>, k: nat, at: Word, size: Word)
    requires 0 < at && at + |was| <= WORD && k <= Room(at, size) < |was| == |before|
    requires before[Room(at, size)..] == was[Room(at, size)..] && now == before[k := NUL]
    ensures now[Room(at, size) + 1..] == was[Room(at, size) + 1..]
    ensures size <= |was| ==> (now[size..] == was[size..] <==> size >= 1 || was[0] == NUL)
  {
    var room := Room(at, size);
    assert now[room + 1..] == before[room..][1..] && was[room + 1..] == was[room..][1..];
    if size == 0 {
      assert before == before[0..] == was[0..] == was;
      assert now[0..] == now && now[0] == NUL;
      if was[0] == NUL {
        assert now == was;
      }
    }
  }

  lemma {:induction false} EndAddress(at: Word, size: Word, length: nat)
    requires 0 < at && at + length <= WORD && Room(at, size) < length
    ensures var end := (at + size - 1) % WORD;
      end == at + Room(at, size) || (Room(at, size) == 0 && end <= at)
  {
  }

  /** The size that vsprintf and sprintf pass: for any buffer above the lowest two addresses they
      print nothing but the terminator. */
  lemma {:induction false} UnboundedSizeHasNoRoom(at: Word)
    ensures Room(at, WORD - 1) == 0 <==> at >= 2
  {
  }

  /** vsprintf and sprintf. */
  method Sprintf(buf: array<char>, at: Word, fmt: string, args: seq<Arg>) returns (r: Outcome)
    requires 2 <= at && 0 < buf.Length && at + buf.Length <= WORD && Needed(fmt) <= |args|
    modifies buf
    ensures r == Length(0) && buf[0] == NUL && buf[1..] == old(buf[1..])
  {
    UnboundedSizeHasNoRoom(at);
    r := Vsnprintf(buf, at, WORD - 1, fmt, args);
  }

  lemma {:induction false} Start(fmt: string, args: seq<Arg>, out: string, end: nat)
    requires Needed(fmt) <= |args| && out == []
    ensures Progress(fmt, args, out, Render(fmt, args), 0 < end, 0, 0)
  {
    assert fmt[0..] == fmt && args[0..] == args;
  }

  lemma {:induction false} Here(fmt: string, args: seq<Arg>, out: string, rest: string, i: nat, j: nat)
    requires Progress(fmt, args, out, rest, true, i, j) && i < |fmt|
    ensures fmt[i..] != [] && fmt[i..][0] == fmt[i] && (fmt[i..] == "%" <==> fmt[i] == '%' && i + 1 == |fmt|)
    ensures Needed(fmt[i..]) <= |args[j..]|
    ensures fmt[i] == '%' && i + 1 < |fmt| ==> fmt[i..][1] == fmt[i + 1] && (Consumes(fmt[i + 1]) ==> j < |args| && args[j..][0] == args[j])
  {
  }

  lemma {:induction false} Lone(fmt: string, args: seq<Arg>, out: string, rest: string, i: nat, j: nat)
    requires Progress(fmt, args, out, rest, true, i, j) && fmt[i..] == "%"
    ensures LoneTail(fmt) && |Render(fmt, args)| == |out|
  {
  }

  lemma {:induction false} Finish(fmt: string, args: seq<Arg>, out: string, rest: string, i: nat, j: nat, end: nat)
    requires Progress(fmt, args, out, rest, |out| < end, i, j) && |out| <= end && (i == |fmt| || |out| == end)
    ensures !(LoneTail(fmt) && |Render(fmt, args)| < end)
    ensures |out| == (if |Render(fmt, args)| < end then |Render(fmt, args)| else end)
    ensures out == Render(fmt, args)[..|out|]
  {
    if |out| < end {
      assert fmt[i..] == "";
    }
  }
}
