/** The Redis client's wire protocol (RedisClient.h): commands are encoded as RESP arrays of bulk
  * strings; replies are read line by line from the socket.
  *
  * The socket is the sequence of bytes still to come; recv returns some of what is asked for while
  * bytes remain, and 0 afterwards; only the line end behind a bulk string is taken to come whole.
  * send takes any part of what it is given, or fails.
  */
module Resp {
  import opened Sequences
  import opened Options
  import opened Text


  // ----- encoding -----

  function BulkText(arg: string): string
  {
    "$" + NatText(|arg|) + CRLF + arg + CRLF
  }

  function BulkTexts(args: seq<string>): string
  {
    if args == [] then [] else BulkTexts(args[..|args| - 1]) + BulkText(args[|args| - 1])
  }

  function CommandText(args: seq<string>): string
  {
    "*" + NatText(|args|) + CRLF + BulkTexts(args)
  }

  // The string building of sendCommand.
  method BuildCommand(args: seq<string>) returns (cmd: string)
    ensures cmd == CommandText(args)
  {
    cmd := "*" + NatText(|args|) + CRLF;
    ghost var head := cmd;
    for i := 0 to |args|
      invariant cmd == head + BulkTexts(args[..i])
    {
      ghost var was := cmd;
      cmd := cmd + "$" + NatText(|args[i]|) + CRLF;
      cmd := cmd + args[i] + CRLF;
      assert cmd == was + BulkText(args[i]);
      assert args[..i + 1][..i] == args[..i];
      Assoc(head, BulkTexts(args[..i]), BulkText(args[i]));
    }
    assert args[..|args|] == args;
  }

  // ----- reading -----

  // A reader's result: the value and the bytes left, or the exception of stoi.
  datatype Read<+A> = Read(value: A, rest: string, open: bool) | Thrown(rest: string)

  function From(s: string, i: nat): string
  {
    if i <= |s| then s[i..] else []
  }

  // readLine: up to '\r', which is dropped together with the byte after it.
  function LineOf(input: string): Read<string>
  {
    match Find(input, "\r", 0)
    case None => Read("", "", false)
    case Some(k) => Read(input[..k], From(input, k + 2), true)
  }

  // readBytes: exactly count bytes, then two more.
  function BytesOf(input: string, count: nat): Read<string>
  {
    if |input| < count then Read("", "", false) else Read(input[..count], From(input, count + 2), true)
  }

  function BulkOf(input: string): Read<Option<string>>
  {
    var l := LineOf(input);
    if l.value == "" then Read(None, l.rest, l.open)
    else if l.value[0] == '$' then
      match Stoi(l.value[1..])
      case None => Thrown(l.rest)
      case Some(len) =>
        if len < 0 then Read(None, l.rest, l.open)
        else var b := BytesOf(l.rest, len); Read(Some(b.value), b.rest, b.open)
    else if l.value[0] == '+' then Read(Some(l.value[1..]), l.rest, l.open)
    else Read(None, l.rest, l.open)
  }

  function ValueOr(v: Option<string>): string
  {
    match v case None => "" case Some(s) => s
  }

  // The element loop of readArray.
  function ElementsOf(input: string, open: bool, count: nat): Read<seq<string>>
    decreases count
  {
    if count == 0 then Read([], input, open)
    else
      match BulkOf(input)
      case Thrown(rest) => Thrown(rest)
      case Read(v, rest, open') =>
        match ElementsOf(rest, open && open', count - 1)
        case Thrown(rest') => Thrown(rest')
        case Read(vs, rest', open'') => Read([ValueOr(v)] + vs, rest', open'')
  }

  function ArrayOf(input: string, open: bool): Read<seq<string>>
  {
    var l := LineOf(input);
    if l.value == "" || l.value[0] != '*' then Read([], l.rest, open && l.open)
    else
      match Stoi(l.value[1..])
      case None => Thrown(l.rest)
      case Some(count) => ElementsOf(l.rest, open && l.open, if count < 0 then 0 else count)
  }

  class RedisClient {
    var input: string  // what the server will still send
    var output: string // what send has taken
    var open: bool     // fd_ >= 0

    constructor (input: string)
      ensures this.input == input && output == "" && open
    {
      this.input, output, open := input, "", true;
    }

    // sendCommand: the whole command goes out, or only its beginning does and the client is closed.
    method SendCommand(args: seq<string>) returns (whole: bool, ghost k: nat)
      modifies this`output, this`open
      ensures k <= |CommandText(args)| && output == old(output) + CommandText(args)[..k]
      ensures whole <==> k == |CommandText(args)|
      ensures open == (old(open) && whole)
    {
      var cmd := BuildCommand(args);
      var total := 0;
      k := 0;
      while total < |cmd|
        invariant k == total <= |cmd| && output == old(output) + cmd[..total] && open == old(open)
      {
        var sent: int :| sent <= |cmd| - total;
        if sent <= 0 {
          open := false;
          return false, total;
        }
        Assoc(old(output), cmd[..total], cmd[total..total + sent]);
        assert cmd[..total] + cmd[total..total + sent] == cmd[..total + sent];
        output := output + cmd[total..total + sent];
        total := total + sent;
        k := total;
      }
      whole := true;
    }

    method ReadLine() returns (line: string)
      modifies this`input, this`open
      ensures var l := LineOf(old(input)); line == l.value && input == l.rest && open == (old(open) && l.open)
    {
      ghost var all := input;
      line := "";
      while true
        invariant line + input == all && open == old(open)
        invariant forall j | 0 <= j < |line| :: line[j] != '\r'
        decreases |input|
      {
        if input == "" {
          NoCrLine(all, line);
          open := false;
          return "";
        }
        var c := input[0];
        if c == '\r' {
          CrLine(all, line, input);
          input := From(input, 2);
          return;
        }
        NextChar(all, line, input);
        input := input[1..];
        line := line + [c];
      }
    }

    // recv: some of the bytes still to come, at most max of them; nothing once there are none.
    method Recv(max: nat) returns (got: string)
      requires max > 0
      modifies this`input
      ensures got + input == old(input) && |got| <= max && (got == "" <==> old(input) == "")
    {
      if input == "" {
        return "";
      }
      var n: nat :| 0 < n <= max && n <= |input|;
      got := input[..n];
      input := input[n..];
    }

    method ReadBytes(count: nat) returns (buf: string)
      modifies this`input, this`open
      ensures var b := BytesOf(old(input), count); buf == b.value && input == b.rest && open == (old(open) && b.open)
    {
      ghost var all := input;
      buf := "";
      while |buf| < count
        invariant |buf| <= count && buf + input == all && open == old(open)
        decreases count - |buf|
      {
        var got := Recv(count - |buf|);
        if got == "" {
          assert input == "" && all == buf + "";
          open := false;
          return "";
        }
        Assoc(buf, got, input);
        buf := buf + got;
      }
      assert all[..count] == buf && From(all, count + 2) == From(input, 2);
      input := From(input, 2);
    }

    // Throws stands for the std::exception of stoi.
    method ReadBulkString() returns (v: Option<string>, threw: bool)
      modifies this`input, this`open
      ensures match BulkOf(old(input))
              case Read(v', rest, o) => v == v' && input == rest && open == (old(open) && o) && !threw
              case Thrown(rest) => threw && input == rest
    {
      v, threw := None, false;
      var line := ReadLine();
      if line == "" {
        return;
      }
      if line[0] == '$' {
        var len := Stoi(line[1..]);
        if len.None? {
          threw := true;
        } else if len.value >= 0 {
          var b := ReadBytes(len.value);
          v := Some(b);
        }
      } else if line[0] == '+' {
        v := Some(line[1..]);
      }
    }

    method ReadElements(count: nat) returns (result: seq<string>, threw: bool)
      modifies this`input, this`open
      ensures match ElementsOf(old(input), old(open), count)
              case Read(vs, rest, o) => result == vs && input == rest && open == o && !threw
              case Thrown(rest) => threw && input == rest
    {
      result, threw := [], false;
      var i := 0;
      ghost var whole := ElementsOf(input, open, count);
      ContinuesStart(whole);
      while i < count
        invariant i <= count && !threw
        invariant Continues(whole, result, ElementsOf(input, open, count - i))
      {
        ElementStep(whole, result, input, open, count - i);
        var v;
        v, threw := ReadBulkString();
        if threw {
          return;
        }
        result := result + [ValueOr(v)];
        i := i + 1;
      }
    }

    method ReadArray() returns (result: seq<string>, threw: bool)
      modifies this`input, this`open
      ensures match ArrayOf(old(input), old(open))
              case Read(vs, rest, o) => result == vs && input == rest && open == o && !threw
              case Thrown(rest) => threw && input == rest
    {
      result, threw := [], false;
      var line := ReadLine();
      if line == "" || line[0] != '*' {
        return;
      }
      var count := Stoi(line[1..]);
      if count.None? {
        threw := true;
      } else {
        result, threw := ReadElements(if count.value < 0 then 0 else count.value);
      }
    }
  }

  lemma {:induction false} ContinuesStart(whole: Read<seq<string>>)
    ensures Continues(whole, [], whole)
  {
    if whole.Read? { assert [] + whole.value == whole.value; }
  }

  // One element read, the rest to go.
  lemma {:induction false} ElementStep(whole: Read<seq<string>>, done: seq<string>, input: string, open: bool,
      count: nat)
    requires count > 0 && Continues(whole, done, ElementsOf(input, open, count))
    ensures match BulkOf(input)
            case Thrown(rest) => whole == Thrown(rest)
            case Read(v, rest, o) => Continues(whole, done + [ValueOr(v)], ElementsOf(rest, open && o, count - 1))
  {
    match BulkOf(input) {
      case Thrown(rest) =>
      case Read(v, rest, o) =>
        match ElementsOf(rest, open && o, count - 1) {
          case Thrown(rest') =>
          case Read(vs, rest', o') =>
            assert done + ([ValueOr(v)] + vs) == (done + [ValueOr(v)]) + vs;
        }
    }
  }

  lemma {:induction false} NextChar(all: string, line: string, input: string)
    requires line + input == all && input != ""
    ensures (line + [input[0]]) + input[1..] == all
  {
    assert input == [input[0]] + input[1..];
    Assoc(line, [input[0]], input[1..]);
  }

  lemma {:induction false} CrLine(all: string, line: string, input: string)
    requires line + input == all && input != "" && input[0] == '\r' && forall j | 0 <= j < |line| :: line[j] != '\r'
    ensures LineOf(all) == Read(line, From(input, 2), true)
  {
    CrAt(all, |line|);
    assert all[..|line|] == line && From(all, |line| + 2) == From(input, 2);
  }

  lemma {:induction false} NoCrLine(all: string, line: string)
    requires line + "" == all && forall j | 0 <= j < |line| :: line[j] != '\r'
    ensures LineOf(all) == Read("", "", false)
  {
    NoCr(all);
  }

  lemma {:induction false} CrAt(all: string, k: nat)
    requires k < |all| && all[k] == '\r' && forall j | 0 <= j < k :: all[j] != '\r'
    ensures LineOf(all) == Read(all[..k], From(all, k + 2), true)
  {
    forall j | 0 <= j <= k ensures OccursAt(all, "\r", j) <==> all[j] == '\r' { assert all[j..j + 1] == [all[j]]; }
    FindFirst(all, "\r", 0, k);
  }

  lemma {:induction false} NoCr(all: string)
    requires forall j | 0 <= j < |all| :: all[j] != '\r'
    ensures LineOf(all) == Read("", "", false)
  {
    forall j | 0 <= j ensures !OccursAt(all, "\r", j) {
      if j < |all| { assert all[j..j + 1] == [all[j]]; }
    }
    FindNone(all, "\r", 0);
  }

  // whole is what done followed by the remaining read amounts to.
  ghost predicate Continues(whole: Read<seq<string>>, done: seq<string>, left: Read<seq<string>>)
  {
    match left
    case Thrown(rest) => whole == Thrown(rest)
    case Read(vs, rest, o) => whole == Read(done + vs, rest, o)
  }

  // ----- round trips -----

  // A reply element: what the server may put into a flat array.
  datatype Element = Bulk(text: string) | Nil | Simple(line: string) | Failure(line: string) | Number(n: int)

  predicate WellFormed(e: Element)
  {
    match e
    case Bulk(s) => |s| <= INT_MAX
    case Simple(s) => '\r' !in s
    case Failure(s) => '\r' !in s
    case _ => true
  }

  function ElementText(e: Element): string
  {
    match e
    case Bulk(s) => BulkText(s)
    case Nil => "$-1" + CRLF
    case Simple(s) => "+" + s + CRLF
    case Failure(s) => "-" + s + CRLF
    case Number(n) => ":" + IntText(n) + CRLF
  }

  // What readArray reports for it.
  function ElementValue(e: Element): string
  {
    match e
    case Bulk(s) => s
    case Simple(s) => s
    case _ => ""
  }

  function ElementTexts(es: seq<Element>): string
  {
    if es == [] then [] else ElementText(es[0]) + ElementTexts(es[1..])
  }

  function Values(es: seq<Element>): seq<string>
  {
    if es == [] then [] else [ElementValue(es[0])] + Values(es[1..])
  }

  lemma {:induction false} LineReads(line: string, rest: string)
    requires '\r' !in line
    ensures LineOf(line + CRLF + rest) == Read(line, rest, true)
  {
    var all, k := line + CRLF + rest, |line|;
    forall j | 0 <= j < k ensures all[j] != '\r' { assert all[j] == line[j] && line[j] in line; }
    assert all[k] == '\r';
    CrAt(all, k);
    assert all[..k] == line && all[k + 2..] == rest;
  }

  lemma {:induction false} NumberLine(n: int)
    ensures '\r' !in IntText(n)
  {
    if n < 0 { assert '\r' !in NatText(-n); } else { assert '\r' !in NatText(n); }
  }

  lemma {:induction false} BytesRead(s: string, rest: string)
    ensures BytesOf(s + CRLF + rest, |s|) == Read(s, rest, true)
  {
    var all := s + CRLF + rest;
    assert all[..|s|] == s && all[|s| + 2..] == rest;
  }

  lemma {:induction false} BulkReads(s: string, rest: string)
    requires |s| <= INT_MAX
    ensures BulkOf(BulkText(s) + rest) == Read(Some(s), rest, true)
  {
    var line, body := "$" + NatText(|s|), s + CRLF + rest;
    assert BulkText(s) + rest == line + CRLF + body;
    assert '\r' !in line by { assert '\r' !in NatText(|s|); }
    LineReads(line, body);
    assert line[1..] == NatText(|s|) + "";
    ReadPositive(|s|, "");
    BytesRead(s, rest);
  }

  lemma {:induction false} LineElementReads(mark: char, line: string, rest: string)
    requires '\r' !in line && mark != '\r' && mark != '$'
    ensures BulkOf([mark] + line + CRLF + rest) == Read(if mark == '+' then Some(line) else None, rest, true)
  {
    var l := [mark] + line;
    LineReads(l, rest);
    assert l[1..] == line;
  }

  lemma {:induction false} NilReads(rest: string)
    ensures BulkOf("$-1" + CRLF + rest) == Read(None, rest, true)
  {
    LineReads("$-1", rest);
    assert NatText(1) == ['1'];
    assert "$-1"[1..] == "-" + NatText(1) + "";
    ReadNegative(1, "");
  }

  lemma {:induction false} ElementReads(e: Element, rest: string)
    requires WellFormed(e)
    ensures var r := BulkOf(ElementText(e) + rest);
            r.Read? && ValueOr(r.value) == ElementValue(e) && r.rest == rest && r.open
  {
    match e {
      case Bulk(s) => BulkReads(s, rest);
      case Nil => NilReads(rest);
      case Simple(s) => LineElementReads('+', s, rest);
      case Failure(s) => LineElementReads('-', s, rest);
      case Number(n) =>
        NumberLine(n);
        LineElementReads(':', IntText(n), rest);
    }
  }

  lemma {:induction false} ElementsRead(es: seq<Element>, rest: string)
    requires forall e | e in es :: WellFormed(e)
    ensures ElementsOf(ElementTexts(es) + rest, true, |es|) == Read(Values(es), rest, true)
  {
    if es == [] {
      assert ElementTexts(es) + rest == rest;
    } else {
      var more := ElementTexts(es[1..]) + rest;
      Assoc(ElementText(es[0]), ElementTexts(es[1..]), rest);
      ElementReads(es[0], more);
      ElementsRead(es[1..], rest);
    }
  }

  function ReplyText(es: seq<Element>): string
  {
    "*" + NatText(|es|) + CRLF + ElementTexts(es)
  }

  // readArray consumes exactly a well-formed flat array reply, and reports its values.
  lemma {:induction false} ReplyReads(es: seq<Element>, rest: string)
    requires |es| <= INT_MAX && forall e | e in es :: WellFormed(e)
    ensures ArrayOf(ReplyText(es) + rest, true) == Read(Values(es), rest, true)
  {
    var line, body := "*" + NatText(|es|), ElementTexts(es) + rest;
    assert ReplyText(es) + rest == line + CRLF + body;
    assert '\r' !in line by { assert '\r' !in NatText(|es|); }
    LineReads(line, body);
    assert line[1..] == NatText(|es|) + "";
    ReadPositive(|es|, "");
    ElementsRead(es, rest);
  }

  // readArray undoes sendCommand's encoding, whatever bytes the arguments hold and whatever follows.
  lemma {:induction false} CommandReads(args: seq<string>, rest: string)
    requires |args| <= INT_MAX && forall a | a in args :: |a| <= INT_MAX
    ensures ArrayOf(CommandText(args) + rest, true) == Read(args, rest, true)
  {
    var es := seq(|args|, i requires 0 <= i < |args| => Bulk(args[i]));
    forall e | e in es ensures WellFormed(e) {
      var i :| 0 <= i < |es| && es[i] == e;
      assert args[i] in args;
    }
    BulksAreElements(args, es);
    ReplyReads(es, rest);
  }

  lemma {:induction false} BulksAreElements(args: seq<string>, es: seq<Element>)
    requires |es| == |args| && forall i | 0 <= i < |args| :: es[i] == Bulk(args[i])
    ensures ElementTexts(es) == BulkTexts(args) && Values(es) == args
  {
    if args != [] {
      var n := |args| - 1;
      SplitLast(args);
      SplitLast(es);
      BulksAreElements(args[..n], es[..n]);
      BulkLast(args, es, args[..n], es[..n], args[n]);
    }
  }

  lemma {:induction false} BulkLast(args: seq<string>, es: seq<Element>, args': seq<string>, es': seq<Element>,
      a: string)
    requires args == args' + [a] && es == es' + [Bulk(a)] && ElementTexts(es') == BulkTexts(args') &&
             Values(es') == args'
    ensures ElementTexts(es) == BulkTexts(args) && Values(es) == args
  {
    ElementsAppend(es', Bulk(a));
    assert args[..|args| - 1] == args';
  }

  lemma {:induction false} ElementsAppend(es: seq<Element>, e: Element)
    ensures ElementTexts(es + [e]) == ElementTexts(es) + ElementText(e)
    ensures Values(es + [e]) == Values(es) + [ElementValue(e)]
  {
    if es == [] {
      assert (es + [e])[1..] == [];
    } else {
      assert (es + [e])[1..] == es[1..] + [e];
      ElementsAppend(es[1..], e);
      Assoc(ElementText(es[0]), ElementTexts(es[1..]), ElementText(e));
    }
  }

  // ----- replies that are not arrays, and the bytes on the wire -----

  // A reply whose first line is not an array header, an error, status or number say: no elements,
  // and just that line is consumed.
  lemma {:induction false} NoArrayReads(line: string, rest: string, open: bool)
    requires '\r' !in line && (line == "" || line[0] != '*')
    ensures ArrayOf(line + "\r\n" + rest, open) == Read([], rest, open)
  {
    LineReads(line, rest);
  }

  // An array header that announces no elements, a negative number of them, or no number.
  lemma {:induction false} EmptyArrayReads(n: int, rest: string, open: bool)
    requires n <= 0 && INT_MIN <= n
    ensures ArrayOf("*" + IntText(n) + "\r\n" + rest, open) == Read([], rest, open)
  {
    NumberLine(n);
    var line := "*" + IntText(n);
    forall c | c in line ensures c != '\r' { assert c in IntText(n) || c == '*'; }
    LineReads(line, rest);
    assert line[1..] == IntText(n) == IntText(n) + "";
    ReadPrinted(n, "");
  }

  // What each line makes readBulkString report, by its first character.
  lemma {:induction false} LineMeans(line: string, rest: string)
    requires '\r' !in line
    ensures var r := BulkOf(line + "\r\n" + rest);
            && (line == "" || (line[0] != '$' && line[0] != '+') ==> r == Read(None, rest, true))
            && (line != "" && line[0] == '+' ==> r == Read(Some(line[1..]), rest, true))
            && (line != "" && line[0] == '$' && Stoi(line[1..]).None? ==> r == Thrown(rest))
            && (line != "" && line[0] == '$' && Stoi(line[1..]).Some? && Stoi(line[1..]).value < 0 ==>
                  r == Read(None, rest, true))
  {
    LineReads(line, rest);
  }

  // The command of a list of arguments: the number of arguments behind a star, and each argument
  // behind its length and a dollar sign, every line ended by CR LF.
  lemma {:induction false} CommandMeans(args: seq<string>, last: string)
    ensures CommandText([]) == "*0\r\n"
    ensures CommandText(args) == "*" + NatText(|args|) + "\r\n" + Lines(args)
    ensures Lines(args + [last]) == Lines(args) + "$" + NatText(|last|) + "\r\n" + last + "\r\n"
  {
    LinesAre(args);
    assert (args + [last])[..|args|] == args;
  }

  function Lines(args: seq<string>): string
  {
    if args == [] then ""
    else
      var last := args[|args| - 1];
      Lines(args[..|args| - 1]) + "$" + NatText(|last|) + "\r\n" + last + "\r\n"
  }

  lemma {:induction false} LinesAre(args: seq<string>)
    ensures Lines(args) == BulkTexts(args)
  {
    if args != [] {
      var was, last := args[..|args| - 1], args[|args| - 1];
      LinesAre(was);
      Assoc(Lines(was), "$", NatText(|last|));
      Assoc(Lines(was), "$" + NatText(|last|), "\r\n");
      Assoc(Lines(was), "$" + NatText(|last|) + "\r\n", last);
      Assoc(Lines(was), "$" + NatText(|last|) + "\r\n" + last, "\r\n");
    }
  }
}
