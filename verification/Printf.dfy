// The format interpreter (kernel/kstdlib/stdio.c), and a grammar of formats to check it against.
module Printf {
  import opened Words
  import opened Numbers

  // Arguments as va_arg takes them: 64-bit, 32-bit, int, char, and the memory a string points to.
  datatype Arg = Long(l: nat) | Unsigned(w: nat) | Int(i: int) | Char(c: char) | Text(m: string)

  // What is written, the arguments left over, and where the loop stopped; or an argument
  // that is missing or of another type, or a read past the format's memory.
  datatype Outcome = Done(text: string, rest: seq<Arg>, stop: nat) | Bad

  predicate IsDigit(c: char) {
    '0' <= c <= '9'
  }

  // printf_internal_ParseZeroPadWidth: the width, and the index after it.
  function ParseDigits(fmt: string, at: nat, width: nat): (r: (nat, nat))
    ensures r.1 >= at
    decreases |fmt| - at
  {
    if at < |fmt| && IsDigit(fmt[at]) then ParseDigits(fmt, at + 1, width * 10 + DigitValue(fmt[at])) else (width, at)
  }

  function ParseWidth(fmt: string, at: nat): (r: (nat, nat))
    ensures r.1 >= at
  {
    if at < |fmt| && fmt[at] == '0' then ParseDigits(fmt, at + 1, 0) else (0, at)
  }

  // Characters up to the NUL; no value if there is none.
  function UpToNul(m: string, at: nat): (r: Option<string>)
    decreases |m| - at
  {
    if at >= |m| then None
    else if m[at] == NUL then Some("")
    else match UpToNul(m, at + 1) case None => None case Some(s) => Some([m[at]] + s)
  }

  // One directive, from the character after the width: the text, the arguments left, and the
  // index of the directive's last character.
  function Directive(fmt: string, at: nat, width: nat, args: seq<Arg>): (r: Outcome)
    ensures r.Done? ==> r.stop >= at
  {
    if at >= |fmt| then Bad
    else
      match fmt[at]
      case 'l' =>
        if at + 1 >= |fmt| then Bad
        else if fmt[at + 1] == 'x' then
          if args != [] && args[0].Long? then Done(HexText(args[0].l, width), args[1..], at + 1) else Bad
        else if fmt[at + 1] == 'u' then
          if args != [] && args[0].Long? then Done(DecimalText(args[0].l), args[1..], at + 1) else Bad
        else Done("", args, at + 1)
      case 'c' => if args != [] && args[0].Char? then Done([args[0].c], args[1..], at) else Bad
      case 'd' => if args != [] && args[0].Int? then Done(SignedText(args[0].i), args[1..], at) else Bad
      case 'x' => if args != [] && args[0].Unsigned? then Done(HexText(args[0].w, width), args[1..], at) else Bad
      case 's' =>
        if args != [] && args[0].Text? && UpToNul(args[0].m, 0).Some?
        then Done(UpToNul(args[0].m, 0).value, args[1..], at) else Bad
      case '%' => Done("%", args, at)
      case _ => Done("", args, at)
  }

  function Prepend(s: string, r: Outcome): (result: Outcome) {
    if r.Done? then r.(text := s + r.text) else r
  }

  // One turn of the loop on a character that is not the NUL.
  function Turn(fmt: string, at: nat, args: seq<Arg>): (r: Outcome)
    requires at < |fmt|
    ensures r.Done? ==> r.stop > at
  {
    if fmt[at] != '%' then Done([fmt[at]], args, at + 1)
    else
      var (width, next) := ParseWidth(fmt, at + 1);
      var d := Directive(fmt, next, width, args);
      if d.Done? then d.(stop := d.stop + 1) else Bad
  }

  // The loop from index `at`.
  function Print(fmt: string, at: nat, args: seq<Arg>): (r: Outcome)
    decreases |fmt| - at
  {
    if at >= |fmt| then Bad
    else if fmt[at] == NUL then Done("", args, at)
    else
      var t := Turn(fmt, at, args);
      if t.Done? then Prepend(t.text, Print(fmt, t.stop, t.rest)) else Bad
  }

  // ---- The code ----

  // printf_internal_String; no value when the string has no NUL.
  method PrintString(console: Console, m: string) returns (count: Option<nat>)
    modifies console
    ensures match UpToNul(m, 0)
            case None => count.None?
            case Some(s) => count == Some(|s|) && console.text == old(console.text) + s
  {
    var index := 0;
    ghost var done := "";
    assert UpToNul(m, 0).Some? ==> done + UpToNul(m, 0).value == UpToNul(m, 0).value;
    while index < |m| && m[index] != NUL
      invariant index <= |m| && |done| == index && console.text == old(console.text) + done
      invariant match UpToNul(m, index)
                case None => UpToNul(m, 0).None?
                case Some(s) => UpToNul(m, 0) == Some(done + s)
    {
      console.WriteDebugChar(m[index]);
      ghost var tail := UpToNul(m, index + 1);
      assert tail.Some? ==> done + ([m[index]] + tail.value) == (done + [m[index]]) + tail.value;
      done := done + [m[index]];
      index := index + 1;
    }
    if index < |m| {
      assert done + "" == done;
      count := Some(index);
    } else {
      count := None;
    }
  }

  method ParseZeroPadWidth(fmt: string, index: nat) returns (width: nat, next: nat)
    ensures (width, next) == ParseWidth(fmt, index)
  {
    width, next := 0, index;
    if next >= |fmt| || fmt[next] != '0' {
      return;
    }
    next := next + 1;
    while next < |fmt| && IsDigit(fmt[next])
      invariant next <= |fmt|
      invariant ParseDigits(fmt, index + 1, 0) == ParseDigits(fmt, next, width)
    {
      width := width * 10 + DigitValue(fmt[next]);
      next := next + 1;
    }
  }

  // The switch over a directive's conversion.
  method PrintDirective(console: Console, fmt: string, index: nat, width: nat, args: seq<Arg>)
      returns (count: Option<nat>, last: nat, rest: seq<Arg>)
    modifies console
    ensures var d := Directive(fmt, index, width, args);
            match d
            case Bad => count.None?
            case Done(text, r, stop) =>
              count == Some(|text|) && rest == r && last == stop && console.text == old(console.text) + text
  {
    hide HexText, DecimalText, SignedText, UpToNul;
    count, last, rest := None, index, args;
    if index >= |fmt| {
      return;
    }
    match fmt[index] {
      case 'l' =>
        if index + 1 >= |fmt| {
          return;
        }
        last := index + 1;
        if fmt[last] == 'x' {
          if args == [] || !args[0].Long? { return; }
          rest := args[1..];
          var n := HexPadded(console, args[0].l, width);
          count := Some(n);
        } else if fmt[last] == 'u' {
          if args == [] || !args[0].Long? { return; }
          rest := args[1..];
          var n := ULong(console, args[0].l);
          count := Some(n);
        } else {
          assert console.text + "" == console.text;
          count := Some(0);
        }
      case 'c' =>
        if args == [] || !args[0].Char? { return; }
        rest := args[1..];
        console.WriteDebugChar(args[0].c);
        count := Some(1);
      case 'd' =>
        if args == [] || !args[0].Int? { return; }
        rest := args[1..];
        var n := Number(console, args[0].i);
        count := Some(if args[0].i < 0 then n + 1 else n);
      case 'x' =>
        if args == [] || !args[0].Unsigned? { return; }
        rest := args[1..];
        var n := HexPadded(console, args[0].w, width);
        count := Some(n);
      case 's' =>
        if args == [] || !args[0].Text? { return; }
        rest := args[1..];
        count := PrintString(console, args[0].m);
      case '%' =>
        console.WriteDebugChar('%');
        count := Some(1);
      case _ =>
        assert console.text + "" == console.text;
        count := Some(0);
    }
  }

  lemma PrependTwice(s: string, t: string, r: Outcome)
    ensures Prepend(s, Prepend(t, r)) == Prepend(s + t, r)
  {
    if r.Done? { assert s + (t + r.text) == (s + t) + r.text; }
  }

  // printf_internal: the count returned is the number of characters written.
  method PrintfInternal(console: Console, fmt: string, args: seq<Arg>) returns (written: Option<nat>)
    modifies console
    ensures match Print(fmt, 0, args)
            case Bad => written.None?
            case Done(text, _, _) => written == Some(|text|) && console.text == old(console.text) + text
  {
    hide Directive, ParseWidth;
    var index, numWritten, rest := 0, 0, args;
    ghost var done := "";
    assert Print(fmt, 0, args) == Prepend("", Print(fmt, 0, args)) by {
      if Print(fmt, 0, args).Done? { assert "" + Print(fmt, 0, args).text == Print(fmt, 0, args).text; }
    }
    while index < |fmt| && fmt[index] != NUL
      invariant |done| == numWritten && console.text == old(console.text) + done
      invariant Print(fmt, 0, args) == Prepend(done, Print(fmt, index, rest))
      decreases |fmt| - index
    {
      ghost var t := Turn(fmt, index, rest);
      if t.Done? { PrependTwice(done, t.text, Print(fmt, t.stop, t.rest)); }
      if fmt[index] == '%' {
        var width, next := ParseZeroPadWidth(fmt, index + 1);
        var count, last, rest';
        count, last, rest' := PrintDirective(console, fmt, next, width, rest);
        if count.None? {
          return None;
        }
        numWritten := numWritten + count.value;
        index, rest := last + 1, rest';
      } else {
        console.WriteDebugChar(fmt[index]);
        numWritten := numWritten + 1;
        index := index + 1;
      }
      done := done + t.text;
    }
    if index >= |fmt| {
      return None;
    }
    assert done + "" == done;
    written := Some(numWritten);
  }

  // ---- Formats as a grammar ----

  datatype Conv =
    | Hex(w: nat) | LongHex(l: nat) | LongDec(l: nat) | Dec(i: int) | Chr(c: char) | Str(s: string)
    | Percent | Other(c: char) | LongOther(c: char)

  datatype Piece = Plain(c: char) | Conversion(width: string, conv: Conv)

  predicate Decimal(c: char) {
    c in "0123456789"
  }

  lemma DigitIsDecimal(c: char)
    ensures IsDigit(c) <==> Decimal(c)
  {
  }

  predicate AllDigits(w: string) {
    forall k | 0 <= k < |w| :: Decimal(w[k])
  }

  predicate WidthOk(w: string) {
    w == "" || (w[0] == '0' && AllDigits(w[1..]))
  }

  predicate PieceOk(p: Piece) {
    match p
    case Plain(c) => c != '%' && c != NUL
    case Conversion(width, conv) =>
      && WidthOk(width)
      && match conv
         case Str(s) => NUL !in s
         case Other(c) => c !in "lcdxs%" && c != NUL && (if width == "" then c != '0' else !Decimal(c))
         case LongOther(c) => c != 'x' && c != 'u' && c != NUL
         case _ => true
  }

  function ConvText(v: Conv): (s: string)
    ensures |s| >= 1
  {
    match v
    case Hex(_) => "x"
    case LongHex(_) => "lx"
    case LongDec(_) => "lu"
    case Dec(_) => "d"
    case Chr(_) => "c"
    case Str(_) => "s"
    case Percent => "%"
    case Other(c) => [c]
    case LongOther(c) => "l" + [c]
  }

  function Spelling(p: Piece): (s: string)
    ensures |s| >= 1
  {
    match p
    case Plain(c) => [c]
    case Conversion(width, conv) => "%" + width + ConvText(conv)
  }

  // The number a zero-pad width spells.
  function WidthValue(w: string, from: nat): (r: nat) {
    if w == "" then from else WidthValue(w[1..], from * 10 + DigitValue(w[0]))
  }

  function PieceArgs(p: Piece): (r: seq<Arg>) {
    if p.Plain? then []
    else match p.conv
      case Hex(w) => [Unsigned(w)]
      case LongHex(l) => [Long(l)]
      case LongDec(l) => [Long(l)]
      case Dec(i) => [Int(i)]
      case Chr(c) => [Char(c)]
      case Str(s) => [Text(s + [NUL])]
      case _ => []
  }

  function Rendered(p: Piece): (r: string) {
    match p
    case Plain(c) => [c]
    case Conversion(width, conv) =>
      match conv
      case Hex(w) => HexText(w, WidthValue(width, 0))
      case LongHex(l) => HexText(l, WidthValue(width, 0))
      case LongDec(l) => DecimalText(l)
      case Dec(i) => SignedText(i)
      case Chr(c) => [c]
      case Str(s) => s
      case Percent => "%"
      case _ => ""
  }

  function Spell(ps: seq<Piece>): (r: string) {
    if ps == [] then "" else Spelling(ps[0]) + Spell(ps[1..])
  }

  function Args(ps: seq<Piece>): (r: seq<Arg>) {
    if ps == [] then [] else PieceArgs(ps[0]) + Args(ps[1..])
  }

  function Render(ps: seq<Piece>): (r: string) {
    if ps == [] then "" else Rendered(ps[0]) + Render(ps[1..])
  }

  predicate AllOk(ps: seq<Piece>) {
    ps == [] || (PieceOk(ps[0]) && AllOk(ps[1..]))
  }

  lemma {:induction false} DigitsParsed(fmt: string, at: nat, w: string, value: nat)
    requires HasAt(fmt, at, w) && at + |w| < |fmt| && !Decimal(fmt[at + |w|]) && AllDigits(w)
    ensures ParseDigits(fmt, at, value) == (WidthValue(w, value), at + |w|)
    decreases |w|
  {
    hide IsDigit, Decimal, HasAt;
    DigitIsDecimal(fmt[at]);
    if w != "" {
      assert w == [w[0]] + w[1..];
      HasParts(fmt, at, [w[0]], w[1..]);
      DigitsParsed(fmt, at + 1, w[1..], value * 10 + DigitValue(w[0]));
    }
  }

  lemma {:induction false} WidthParsed(fmt: string, at: nat, w: string)
    requires HasAt(fmt, at, w) && WidthOk(w) && at + |w| < |fmt|
    requires if w == "" then fmt[at] != '0' else !Decimal(fmt[at + |w|])
    ensures ParseWidth(fmt, at) == (WidthValue(w, 0), at + |w|)
  {
    hide IsDigit, Decimal, ParseDigits, WidthValue, HasAt, AllDigits;
    if w == "" {
      EmptyWidth();
    } else {
      assert w == [w[0]] + w[1..];
      HasParts(fmt, at, [w[0]], w[1..]);
      DigitsParsed(fmt, at + 1, w[1..], 0);
      LeadingZero(w);
    }
  }

  // It is the number its digits spell in base 10.
  lemma {:induction false} WidthIsDecimal(w: string)
    ensures WidthValue(w, 0) == ReadIn(w, 10)
    decreases |w|
  {
    if w != "" {
      WidthIsDecimal(w[..|w| - 1]);
      WidthSnoc(w[..|w| - 1], w[|w| - 1], 0);
      assert w == w[..|w| - 1] + [w[|w| - 1]];
    }
  }

  lemma {:induction false} WidthSnoc(w: string, c: char, from: nat)
    ensures WidthValue(w + [c], from) == WidthValue(w, from) * 10 + DigitValue(c)
    decreases |w|
  {
    if w == "" {
      assert (w + [c])[1..] == "";
    } else {
      assert (w + [c])[1..] == w[1..] + [c];
      WidthSnoc(w[1..], c, from * 10 + DigitValue(w[0]));
    }
  }

  lemma EmptyWidth()
    ensures WidthValue("", 0) == 0
  {
  }

  lemma LeadingZero(w: string)
    requires w != "" && w[0] == '0'
    ensures WidthValue(w, 0) == WidthValue(w[1..], 0)
  {
  }

  predicate HasAt(fmt: string, at: nat, s: string) {
    at + |s| <= |fmt| && fmt[at..at + |s|] == s
  }

  lemma HasParts(fmt: string, at: nat, a: string, b: string)
    requires HasAt(fmt, at, a + b)
    ensures HasAt(fmt, at, a) && HasAt(fmt, at + |a|, b)
    ensures a != "" ==> fmt[at] == a[0]
    ensures b != "" ==> fmt[at + |a|] == b[0]
  {
    var s := fmt[at..at + |a + b|];
    assert fmt[at..at + |a|] == s[..|a|] == a;
    assert fmt[at + |a|..at + |a| + |b|] == s[|a|..] == b;
  }

  lemma {:induction false} TextRead(m: string, at: nat, s: string)
    requires at + |s| < |m| && m[at..at + |s|] == s && m[at + |s|] == NUL && NUL !in s
    ensures UpToNul(m, at) == Some(s)
    decreases |s|
  {
    if s != "" {
      assert m[at] == s[0];
      assert m[at + 1..at + 1 + |s[1..]|] == s[1..];
      TextRead(m, at + 1, s[1..]);
      assert s == [s[0]] + s[1..];
    }
  }

  // One directive of the grammar is one directive to the interpreter.
  lemma ConversionRun(fmt: string, at: nat, width: nat, p: Piece, more: seq<Arg>)
    requires p.Conversion? && PieceOk(p) && width == WidthValue(p.width, 0)
    requires HasAt(fmt, at, ConvText(p.conv)) && at + |ConvText(p.conv)| < |fmt|
    ensures Directive(fmt, at, width, PieceArgs(p) + more) ==
            Done(Rendered(p), more, at + |ConvText(p.conv)| - 1)
  {
    hide HexText, DecimalText, SignedText, WidthValue, UpToNul;
    var text, args := ConvText(p.conv), PieceArgs(p) + more;
    assert fmt[at] == text[0] && (|text| == 2 ==> fmt[at + 1] == text[1]);
    assert PieceArgs(p) != [] ==> args[0] == PieceArgs(p)[0] && args[1..] == more;
    assert PieceArgs(p) == [] ==> args == more;
    if p.conv.Str? {
      TextRead(p.conv.s + [NUL], 0, p.conv.s);
    }
  }

  lemma SpellingParts(p: Piece)
    ensures Spelling(p) == if p.Conversion? then "%" + (p.width + ConvText(p.conv)) else [p.c] + ""
  {
    hide ConvText;
    if p.Conversion? { assert "%" + p.width + ConvText(p.conv) == "%" + (p.width + ConvText(p.conv)); }
  }

  lemma PieceRun(fmt: string, at: nat, p: Piece, more: seq<Arg>)
    requires PieceOk(p) && HasAt(fmt, at, Spelling(p)) && at + |Spelling(p)| < |fmt|
    ensures fmt[at] != NUL && Turn(fmt, at, PieceArgs(p) + more) == Done(Rendered(p), more, at + |Spelling(p)|)
  {
    hide Directive, ParseWidth, Rendered, PieceArgs, HasAt, WidthOk, ConvText, IsDigit, Decimal, WidthValue, Spelling;
    SpellingParts(p);
    if p.Conversion? {
      var w, c := p.width, ConvText(p.conv);
      HasParts(fmt, at, "%", w + c);
      HasParts(fmt, at + 1, w, c);
      FirstOfConv(p);
      WidthParsed(fmt, at + 1, w);
      ConversionRun(fmt, at + 1 + |w|, WidthValue(w, 0), p, more);
    } else {
      HasParts(fmt, at, [p.c], "");
      PlainRun(p, more);
    }
  }

  lemma FirstOfConv(p: Piece)
    requires p.Conversion? && PieceOk(p)
    ensures var c := ConvText(p.conv)[0]; if p.width == "" then c != '0' else !Decimal(c)
  {
  }

  lemma PlainRun(p: Piece, more: seq<Arg>)
    requires p.Plain?
    ensures PieceArgs(p) + more == more && Rendered(p) == [p.c]
  {
  }

  // The interpreter against the grammar: for every well-formed format and matching arguments, it
  // stops exactly at the NUL, takes its arguments from left to right, and writes the rendering.
  lemma {:induction false} PrintsPieces(fmt: string, at: nat, ps: seq<Piece>, more: seq<Arg>)
    requires AllOk(ps) && HasAt(fmt, at, Spell(ps)) && at + |Spell(ps)| < |fmt| && fmt[at + |Spell(ps)|] == NUL
    ensures Print(fmt, at, Args(ps) + more) == Done(Render(ps), more, at + |Spell(ps)|)
    decreases |ps|
  {
    hide Turn, PieceOk, Spelling, PieceArgs, Rendered, HasAt;
    if ps == [] {
      assert Args(ps) + more == more;
    } else {
      var s, t := Spelling(ps[0]), Spell(ps[1..]);
      HasParts(fmt, at, s, t);
      assert Args(ps) + more == PieceArgs(ps[0]) + (Args(ps[1..]) + more);
      PieceRun(fmt, at, ps[0], Args(ps[1..]) + more);
      PrintsPieces(fmt, at + |s|, ps[1..], more);
    }
  }

  // ---- Where the loop stops ----

  // The text does not end inside a directive.
  predicate Complete(text: string, at: nat)
    decreases |text| - at
  {
    if at >= |text| then at == |text|
    else if text[at] != '%' then Complete(text, at + 1)
    else
      var next := ParseWidth(text, at + 1).1;
      if next >= |text| then false
      else if text[next] == 'l' then Complete(text, next + 2)
      else Complete(text, next + 1)
  }

  lemma {:induction false} SameDigits(text: string, fmt: string, at: nat, value: nat)
    requires |text| < |fmt| && fmt[..|text|] == text && fmt[|text|] == NUL && at <= |text|
    ensures ParseDigits(fmt, at, value) == ParseDigits(text, at, value) && ParseDigits(text, at, value).1 <= |text|
    decreases |text| - at
  {
    if at < |text| {
      assert fmt[at] == text[at];
      if IsDigit(text[at]) { SameDigits(text, fmt, at + 1, value * 10 + DigitValue(text[at])); }
    }
  }

  lemma SameWidth(text: string, fmt: string, at: nat)
    requires |text| < |fmt| && fmt[..|text|] == text && fmt[|text|] == NUL && at <= |text|
    ensures ParseWidth(fmt, at) == ParseWidth(text, at) && ParseWidth(text, at).1 <= |text|
  {
    if at < |text| {
      assert fmt[at] == text[at];
      if text[at] == '0' { SameDigits(text, fmt, at + 1, 0); }
    }
  }

  lemma {:induction false} StopsBeyond(fmt: string, at: nat, args: seq<Arg>)
    ensures Print(fmt, at, args).Done? ==> Print(fmt, at, args).stop >= at
    decreases |fmt| - at
  {
    hide Turn;
    if at < |fmt| && fmt[at] != NUL && Turn(fmt, at, args).Done? {
      StopsBeyond(fmt, Turn(fmt, at, args).stop, Turn(fmt, at, args).rest);
    }
  }

  // On every format and whatever arguments let it run to an end, the loop stops at the format's
  // first NUL exactly when no directive is cut short by it; otherwise it has read past the NUL.
  lemma {:induction false} StopsAtNulIff(text: string, fmt: string, at: nat, args: seq<Arg>)
    requires |text| < |fmt| && fmt[..|text|] == text && fmt[|text|] == NUL && NUL !in text && at <= |text|
    requires Print(fmt, at, args).Done?
    ensures Print(fmt, at, args).stop == |text| <==> Complete(text, at)
    ensures !Complete(text, at) ==> Print(fmt, at, args).stop > |text|
    decreases |text| - at
  {
    hide HexText, DecimalText, SignedText, UpToNul, ParseWidth;
    if at < |text| {
      assert fmt[at] == text[at] && text[at] in text;
      var t := Turn(fmt, at, args);
      StopsBeyond(fmt, t.stop, t.rest);
      if text[at] == '%' {
        SameWidth(text, fmt, at + 1);
        var next := ParseWidth(text, at + 1).1;
        assert next < |text| ==> fmt[next] == text[next];
      }
      if t.stop <= |text| { StopsAtNulIff(text, fmt, t.stop, t.rest); }
    }
  }

  lemma {:induction false} SpellsNoNul(ps: seq<Piece>)
    requires AllOk(ps)
    ensures NUL !in Spell(ps)
  {
    hide Spelling, PieceOk;
    if ps != [] {
      SpellsNoNul(ps[1..]);
      PieceNoNul(ps[0]);
    }
  }

  lemma PieceNoNul(p: Piece)
    requires PieceOk(p)
    ensures NUL !in Spelling(p)
  {
    hide WidthOk;
    if p.Conversion? { NoNulDigits(p.width); }
  }

  lemma NoNulDigits(w: string)
    requires WidthOk(w)
    ensures NUL !in w
  {
    forall k | 0 <= k < |w| ensures w[k] != NUL {
      if k > 0 { assert Decimal(w[1..][k - 1]); }
    }
  }

  // Well-formed formats are complete.
  lemma PiecesComplete(ps: seq<Piece>)
    requires AllOk(ps)
    ensures Complete(Spell(ps), 0)
  {
    hide Print, Complete, AllOk, Spell, Args, Render;
    var text := Spell(ps);
    var fmt := text + [NUL];
    SpellsNoNul(ps);
    PrintsPieces(fmt, 0, ps, []);
    assert Args(ps) + [] == Args(ps);
    StopsAtNulIff(text, fmt, 0, Args(ps));
  }

  // A format that ends in a percent sign: the text behind its NUL is printed as well.
  lemma {:induction false} DanglingPercent(behind: string)
    requires NUL !in behind && '%' !in behind
    ensures !Complete("%", 0)
    ensures Print("%" + [NUL] + behind + [NUL], 0, []) == Done(behind, [], |behind| + 2)
  {
    hide Turn;
    var fmt := "%" + [NUL] + behind + [NUL];
    PercentNul(fmt);
    PlainText(fmt, 2, behind);
    assert "" + behind == behind;
  }

  lemma PercentNul(fmt: string)
    requires |fmt| >= 2 && fmt[0] == '%' && fmt[1] == NUL
    ensures Turn(fmt, 0, []) == Done("", [], 2)
  {
  }

  lemma {:induction false} PlainText(fmt: string, at: nat, s: string)
    requires HasAt(fmt, at, s) && at + |s| < |fmt| && fmt[at + |s|] == NUL && NUL !in s && '%' !in s
    ensures Print(fmt, at, []) == Done(s, [], at + |s|)
    decreases |s|
  {
    hide Directive, HasAt, ParseWidth;
    if s != "" {
      assert s == [s[0]] + s[1..] && s[0] in s;
      HasParts(fmt, at, [s[0]], s[1..]);
      PlainText(fmt, at + 1, s[1..]);
    }
  }
}
