/**
  The device's textual command grammar. Every drawing and display operation
  of the driver sends one command of the form `NAME(arg,arg,...)` whose
  integer arguments are written as `str` writes them; the text commands
  carry their text between single quotes. `Decode` reads a command back
  and `DecodeEncode` proves that the encoding loses nothing.
 */
module Commands {
  import opened Wrappers
  import opened Text
  import opened Decimal

  datatype ScreenOrientation = Vertical | Horizontal

  /** The three built-in text sizes: DCV16, DCV24 and DCV32. */
  datatype FontSize = Font16 | Font24 | Font32

  datatype Command =
    | Reset
    | Version
    | Baudrate(rate: int)
    | Clear(color: int)
    | Power(on: bool)
    | RawImage(address: int, x: int, y: int, w: int, h: int, transparent: int)
    | Direction(orientation: ScreenOrientation)
    | Backlight(level: int)
    | Point(x: int, y: int, color: int)
    | Line(x0: int, y0: int, x1: int, y1: int, color: int)
    | HollowBox(x0: int, y0: int, x1: int, y1: int, color: int)
    | FilledBox(x0: int, y0: int, x1: int, y1: int, color: int)
    | HollowCircle(x: int, y: int, radius: int, color: int)
    | FilledCircle(x: int, y: int, radius: int, color: int)
    | Background(color: int)
    | Text(size: FontSize, x: int, y: int, text: string, color: int)

  /** The decimal renderings of a list of integers. */
  function Ints(args: seq<int>): (r: seq<string>)
    ensures |r| == |args|
    ensures forall k :: 0 <= k < |r| ==> r[k] == IntToStr(args[k])
    decreases |args|
  {
    if args == [] then [] else [IntToStr(args[0])] + Ints(args[1..])
  }

  /** `NAME(a,b,...)` with integer arguments. */
  function Call(name: string, args: seq<int>): string {
    name + "(" + Join(Ints(args), ',') + ")"
  }

  function TextName(size: FontSize): string {
    match size
    case Font16 => "DCV16"
    case Font24 => "DCV24"
    case Font32 => "DCV32"
  }

  function Bit(b: bool): int {
    if b then 1 else 0
  }

  /** The commands sent as `NAME(a,b,...)` with integer arguments only. */
  predicate HasArgs(c: Command) {
    !(c.Reset? || c.Version? || c.Text?)
  }

  /** The command's name on the wire. */
  function Name(c: Command): string {
    match c
    case Reset => "RESET"
    case Version => "VER"
    case Baudrate(_) => "BPS"
    case Clear(_) => "CLR"
    case Power(_) => "LCDON"
    case RawImage(_, _, _, _, _, _) => "FSIMG"
    case Direction(_) => "DIR"
    case Backlight(_) => "BL"
    case Point(_, _, _) => "PS"
    case Line(_, _, _, _, _) => "PL"
    case HollowBox(_, _, _, _, _) => "BOX"
    case FilledBox(_, _, _, _, _) => "BOXF"
    case HollowCircle(_, _, _, _) => "CIR"
    case FilledCircle(_, _, _, _) => "CIRF"
    case Background(_) => "SBC"
    case Text(size, _, _, _, _) => TextName(size)
  }

  /** The integer arguments of a command sent as `NAME(a,b,...)`, in order. */
  function Args(c: Command): seq<int> {
    match c
    case Baudrate(rate) => [rate]
    case Clear(color) => [color]
    case Power(on) => [Bit(on)]
    case RawImage(address, x, y, w, h, transparent) => [address, x, y, w, h, transparent]
    case Direction(o) => [Bit(o == Horizontal)]
    case Backlight(level) => [level]
    case Point(x, y, color) => [x, y, color]
    case Line(x0, y0, x1, y1, color) => [x0, y0, x1, y1, color]
    case HollowBox(x0, y0, x1, y1, color) => [x0, y0, x1, y1, color]
    case FilledBox(x0, y0, x1, y1, color) => [x0, y0, x1, y1, color]
    case HollowCircle(x, y, radius, color) => [x, y, radius, color]
    case FilledCircle(x, y, radius, color) => [x, y, radius, color]
    case Background(color) => [color]
    case _ => []
  }

  /** The body `x,y,'text',color` of a text command. */
  function TextBody(x: int, y: int, text: string, color: int): string {
    IntToStr(x) + [','] + (IntToStr(y) + [','] + (("'" + text + "'") + [','] + IntToStr(color)))
  }

  /** The exact text the driver sends for each command (without the line terminator). */
  function Encode(c: Command): string {
    if c.Reset? || c.Version? then Name(c)
    else if c.Text? then Name(c) + "(" + TextBody(c.x, c.y, c.text, c.color) + ")"
    else Call(Name(c), Args(c))
  }

  /** Reads every piece as an integer, or fails. */
  function ParseInts(parts: seq<string>): Option<seq<int>>
    decreases |parts|
  {
    if parts == [] then Some([])
    else match (ParseInt(parts[0]), ParseInts(parts[1..]))
      case (Some(v), Some(vs)) => Some([v] + vs)
      case _ => None
  }

  /** The command named `name` with integer arguments `v`, if there is one. */
  function FromArgs(name: string, v: seq<int>): Option<Command> {
    if name == "BPS" && |v| == 1 then Some(Baudrate(v[0]))
    else if name == "CLR" && |v| == 1 then Some(Clear(v[0]))
    else if name == "LCDON" && |v| == 1 && 0 <= v[0] <= 1 then Some(Power(v[0] == 1))
    else if name == "FSIMG" && |v| == 6 then Some(RawImage(v[0], v[1], v[2], v[3], v[4], v[5]))
    else if name == "DIR" && |v| == 1 && 0 <= v[0] <= 1 then Some(Direction(if v[0] == 1 then Horizontal else Vertical))
    else if name == "BL" && |v| == 1 then Some(Backlight(v[0]))
    else if name == "PS" && |v| == 3 then Some(Point(v[0], v[1], v[2]))
    else if name == "PL" && |v| == 5 then Some(Line(v[0], v[1], v[2], v[3], v[4]))
    else if name == "BOX" && |v| == 5 then Some(HollowBox(v[0], v[1], v[2], v[3], v[4]))
    else if name == "BOXF" && |v| == 5 then Some(FilledBox(v[0], v[1], v[2], v[3], v[4]))
    else if name == "CIR" && |v| == 4 then Some(HollowCircle(v[0], v[1], v[2], v[3]))
    else if name == "CIRF" && |v| == 4 then Some(FilledCircle(v[0], v[1], v[2], v[3]))
    else if name == "SBC" && |v| == 1 then Some(Background(v[0]))
    else None
  }

  /** Reads the body `x,y,'text',color` of a text command. */
  function DecodeText(size: FontSize, body: string): Option<Command> {
    var parts := Split(body, ',');
    if |parts| < 4 then None
    else
      var quoted := Join(parts[2..|parts| - 1], ',');
      match (ParseInt(parts[0]), ParseInt(parts[1]), ParseInt(parts[|parts| - 1]))
      case (Some(x), Some(y), Some(color)) =>
        if |quoted| >= 2 && quoted[0] == '\'' && quoted[|quoted| - 1] == '\'' then
          Some(Text(size, x, y, quoted[1..|quoted| - 1], color))
        else None
      case _ => None
  }

  /** Reads one command: the name runs up to the first `(`, the arguments up to the final `)`. */
  function Decode(s: string): Option<Command> {
    if s == "RESET" then Some(Reset)
    else if s == "VER" then Some(Version)
    else match IndexOf(s, '(')
      case None => None
      case Some(p) =>
        if p + 2 <= |s| && s[|s| - 1] == ')' then
          var name, body := s[..p], s[p + 1..|s| - 1];
          if name == "DCV16" then DecodeText(Font16, body)
          else if name == "DCV24" then DecodeText(Font24, body)
          else if name == "DCV32" then DecodeText(Font32, body)
          else match ParseInts(Split(body, ','))
            case Some(v) => FromArgs(name, v)
            case None => None
        else None
  }

  lemma {:induction false} ParseInts_Ints(args: seq<int>)
    ensures ParseInts(Ints(args)) == Some(args)
    decreases |args|
  {
    if args != [] {
      ParseIntToStr(args[0]);
      ParseInts_Ints(args[1..]);
      assert Ints(args)[1..] == Ints(args[1..]);
      assert [args[0]] + args[1..] == args;
    }
  }

  /** A rendered integer contains no comma and no parenthesis. */
  lemma IntToStrPlain(i: int)
    ensures ',' !in IntToStr(i) && '(' !in IntToStr(i) && '\'' !in IntToStr(i)
  {
  }

  /** Splits `NAME(body)` at its first `(` and final `)`. */
  lemma DecodeShape(name: string, body: string)
    requires '(' !in name
    ensures var s := name + "(" + body + ")";
      IndexOf(s, '(') == Some(|name|) && |name| + 2 <= |s| && s[|s| - 1] == ')'
      && s[..|name|] == name && s[|name| + 1..|s| - 1] == body
  {
    var s := name + "(" + body + ")";
    assert s[|name|] == '(';
    assert s[..|name|] == name;
  }

  /** Decoding a command with integer arguments recovers the name and the integers. */
  lemma DecodeCall(name: string, args: seq<int>)
    requires '(' !in name && |args| >= 1
    requires name != "DCV16" && name != "DCV24" && name != "DCV32"
    ensures Decode(Call(name, args)) == FromArgs(name, args)
  {
    var body := Join(Ints(args), ',');
    var s := Call(name, args);
    assert s == name + "(" + body + ")";
    DecodeShape(name, body);
    assert s != "RESET" && s != "VER" by {
      assert s[|s| - 1] == ')';
    }
    forall k | 0 <= k < |Ints(args)| ensures ',' !in Ints(args)[k] {
      IntToStrPlain(args[k]);
    }
    SplitJoin(Ints(args), ',');
    ParseInts_Ints(args);
  }

  /** The pieces of a text command's body: the two coordinates, the pieces of the quoted text, the colour. */
  lemma SplitTextBody(sx: string, sy: string, quoted: string, sc: string)
    requires ',' !in sx && ',' !in sy && ',' !in sc
    ensures Split(sx + [','] + (sy + [','] + (quoted + [','] + sc)), ',')
      == [sx] + ([sy] + (Split(quoted, ',') + [sc]))
  {
    var q := Split(quoted, ',');
    var t3 := quoted + [','] + sc;
    assert Split(t3, ',') == q + [sc] by {
      SplitAround(quoted, sc, ',');
      SplitNoSeparator(sc, ',');
    }
    var t2 := sy + [','] + t3;
    assert Split(t2, ',') == [sy] + (q + [sc]) by {
      SplitAround(sy, t3, ',');
      SplitNoSeparator(sy, ',');
    }
    assert Split(sx + [','] + t2, ',') == [sx] + ([sy] + (q + [sc])) by {
      SplitAround(sx, t2, ',');
      SplitNoSeparator(sx, ',');
    }
  }

  /** The body `x,y,'text',color` reads back whatever the text contains. */
  lemma DecodeTextBody(size: FontSize, x: int, y: int, text: string, color: int)
    ensures DecodeText(size, TextBody(x, y, text, color)) == Some(Text(size, x, y, text, color))
  {
    var sx, sy, sc := IntToStr(x), IntToStr(y), IntToStr(color);
    var quoted := "'" + text + "'";
    var q := Split(quoted, ',');
    var parts := Split(sx + [','] + (sy + [','] + (quoted + [','] + sc)), ',');
    assert parts == [sx] + ([sy] + (q + [sc])) by {
      IntToStrPlain(x);
      IntToStrPlain(y);
      IntToStrPlain(color);
      SplitTextBody(sx, sy, quoted, sc);
    }
    assert parts[0] == sx && parts[1] == sy && parts[|parts| - 1] == sc;
    assert parts[2..|parts| - 1] == q;
    assert Join(q, ',') == quoted by {
      JoinSplit(quoted, ',');
    }
    ParseIntToStr(x);
    ParseIntToStr(y);
    ParseIntToStr(color);
    assert quoted[1..|quoted| - 1] == text;
  }

  /** A text command is dispatched on its name to the text-body reader. */
  lemma DecodeTextDispatch(size: FontSize, body: string)
    ensures Decode(TextName(size) + "(" + body + ")") == DecodeText(size, body)
  {
    var s := TextName(size) + "(" + body + ")";
    DecodeShape(TextName(size), body);
    assert s != "RESET" && s != "VER" by {
      assert s[|s| - 1] == ')';
    }
  }

  /** A text command is its size's name with the body in parentheses. */
  lemma EncodeText(size: FontSize, x: int, y: int, text: string, color: int)
    ensures Encode(Text(size, x, y, text, color)) == TextName(size) + "(" + TextBody(x, y, text, color) + ")"
  {
  }

  /** Decoding a text command recovers its coordinates, its text and its colour. */
  lemma DecodeTextCommand(size: FontSize, x: int, y: int, text: string, color: int)
    ensures Decode(Encode(Text(size, x, y, text, color))) == Some(Text(size, x, y, text, color))
  {
    EncodeText(size, x, y, text, color);
    DecodeTextDispatch(size, TextBody(x, y, text, color));
    DecodeTextBody(size, x, y, text, color);
  }

  /** A command with integer arguments has a plain name, at least one argument, and reads back from them. */
  lemma CallShape(c: Command)
    requires HasArgs(c)
    ensures '(' !in Name(c) && |Args(c)| >= 1
    ensures Name(c) != "DCV16" && Name(c) != "DCV24" && Name(c) != "DCV32"
  {
  }

  /** The name and the integers of a command determine it. */
  lemma FromArgsNameArgs(c: Command)
    requires HasArgs(c)
    ensures FromArgs(Name(c), Args(c)) == Some(c)
  {
  }

  /** Every command reads back as itself: the encoding is lossless. */
  lemma DecodeEncode(c: Command)
    ensures Decode(Encode(c)) == Some(c)
  {
    if c.Text? {
      DecodeTextCommand(c.size, c.x, c.y, c.text, c.color);
    } else if HasArgs(c) {
      CallShape(c);
      DecodeCall(Name(c), Args(c));
      FromArgsNameArgs(c);
    }
  }

  /** Two different commands never produce the same text. */
  lemma EncodeInjective(c1: Command, c2: Command)
    requires Encode(c1) == Encode(c2)
    ensures c1 == c2
  {
    DecodeEncode(c1);
    DecodeEncode(c2);
  }

  /** `str(10)` is `"10"`. */
  lemma TenExample()
    ensures IntToStr(10) == "10"
  {
    assert NatToStr(10) == NatToStr(1) + [Digit(0)];
  }

  /** The example box's arguments, each as `str` renders it. */
  lemma BoxIntsExample()
    ensures Ints([0, 0, 10, 10, 3]) == ["0", "0", "10", "10", "3"]
  {
    TenExample();
  }

  /** The example box's arguments joined with commas. */
  lemma BoxJoinExample()
    ensures Join(["0", "0", "10", "10", "3"], ',') == "0,0,10,10,3"
  {
    var parts := ["0", "0", "10", "10", "3"];
    assert Join(parts[3..], ',') == "10,3";
    assert Join(parts[1..], ',') == "0,10,10,3";
  }

  /** The filled box from corner (0,0) to (10,10) in colour 3 is sent as `BOXF(0,0,10,10,3)`. */
  lemma FilledBoxExample()
    ensures Encode(FilledBox(0, 0, 10, 10, 3)) == "BOXF(0,0,10,10,3)"
  {
    BoxIntsExample();
    BoxJoinExample();
    assert "BOXF" + "(" + "0,0,10,10,3" + ")" == "BOXF(0,0,10,10,3)";
  }
}
