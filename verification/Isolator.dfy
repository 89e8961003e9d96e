/** `checkAndWriteFunc`: recognising a function and copying it out. */
module Isolator {
  import opened LineReader
  import opened CText

  /** `Stuck`: the call does not return, because the input ends inside a declaration. */
  datatype Verdict = NotFound | Found | Stuck

  /** What is written and read, and what the caller's line buffer then holds. */
  datatype Checked = Checked(verdict: Verdict, out: Line, rest: Input, line: Line)

  datatype Copied = Copied(out: Line, rest: Input)

  // ----- the body

  /** The written part of a line: none of a line led by `//`. */
  function Written(l: Line): Line {
    if LedBy(Text(l), SLASHES) then [] else l
  }

  function BracesWritten(l: Line): int {
    if LedBy(Text(l), SLASHES) then 0 else Braces(Text(l))
  }

  /** The body is complete with this line. */
  predicate Closes(l: Line, sum: int) {
    !LedBy(Text(l), SLASHES) && sum + BracesWritten(l) == 0
  }

  predicate Over(input: Input) {
    input.End? || input.line == []
  }

  function AfterOver(input: Input): Input {
    if input.End? then End else input.rest
  }

  /** The loop that copies the body, from line `l` on, to what has been written. */
  function Body(out: Line, l: Line, rest: Input, sum: int): Copied
    decreases rest
  {
    var more := out + Written(l);
    if Closes(l, sum) then Copied(more, rest)
    else if Over(rest) then Copied(more, AfterOver(rest))
    else Body(more, rest.line, rest.rest, sum + BracesWritten(l))
  }

  // ----- the signature

  /** From the line with the name on: the lines `before` the one with the brace are written first. */
  function Signature(out: Line, l: Line, rest: Input, before: Line): Checked
    decreases rest
  {
    var c := CurlyFirst(Text(l));
    if c == 1 then
      var b := Body(out + before, l, rest, 0);
      Checked(Found, b.out, b.rest, Text(l))
    else if c == -1 then Checked(NotFound, out, rest, Text(l))
    else if rest.End? then Checked(Stuck, out, End, Text(l))
    else Signature(out, rest.line, rest.rest, before + Text(l))
  }

  const STATIC: Line := [0x73, 0x74, 0x61, 0x74, 0x69, 0x63]
  const EXTERN: Line := [0x65, 0x78, 0x74, 0x65, 0x72, 0x6E, 0x20]

  /** The output after a declaration that ends before `next`: it is made extern, unless the string mentions static. */
  function Declared(out: Line, s: Line, next: nat): Line
    requires next <= |s|
  {
    if Contains(s, STATIC) then out else out + EXTERN + s[..next] + [CR]
  }

  /** `checkAndWriteFunc`; `before` is `prependage`, empty for NULL. */
  function Check(out: Line, s: Line, name: Line, rest: Input, before: Line): Checked
    decreases rest, |s|
  {
    match KindOf(s)
    case NoContent => Checked(NotFound, out, rest, s)
    case CurlyBracket => Checked(NotFound, out, rest, s)
    case Semicolon =>
      var next := Decider(s, 0, true) + 1;
      var i := FirstMeaningful(s, next);
      var r := Check(Declared(out, s, next), s[i..], name, rest, []);
      r.(line := s[..i] + r.line)
    case Undefined =>
      if rest.End? then Checked(Stuck, out, End, s)
      else
        var next := Text(rest.line);
        Check(out, next, name, rest.rest, before + next).(line := s)
    case LeftParenthesis =>
      if (before != [] && Names(before, name)) || Names(s, name) then Signature(out, s, rest, before)
      else Checked(NotFound, out, rest, s)
  }

  // ----- the program

  class OutFile {
    var text: Line

    method Fwrite(b: Line)
      modifies this
      ensures text == old(text) + b
    {
      text := text + b;
    }
  }

  /** One line into a new buffer, as a value; -1 at the end. */
  method NextLine(file: InFile) returns (n: int, l: Line)
    requires file.Valid()
    modifies file
    ensures file.Valid()
    ensures match old(file.Rest(CR))
            case End => n == -1 && file.Rest(CR).End?
            case Chunk(line, rest) => n == |line| && l == line && file.Rest(CR) == rest
  {
    var buf, capacity;
    n, buf, capacity := GetLineSplitBy(null, 0, file, CR);
    l := if n >= 0 then buf[..n] else [];
  }

  /** One line of the body. */
  method WriteLine(line: Line, sum: int, out: OutFile) returns (closed: bool, braces: int)
    modifies out
    ensures out.text == old(out.text) + Written(line)
    ensures closed == Closes(line, sum) && braces == sum + BracesWritten(line)
  {
    var s := Text(line);
    var skip := StrContainsAtBeginning(s, FirstMeaningful(s, 0), SLASHES);
    if skip {
      assert out.text + [] == out.text;
      return false, sum;
    }
    out.Fwrite(line);
    braces := CheckCurlyBrackets(s);
    braces := sum + braces;
    closed := braces == 0;
  }

  lemma BodyStep(out: Line, l: Line, rest: Input, sum: int)
    ensures Body(out, l, rest, sum) ==
            if Closes(l, sum) then Copied(out + Written(l), rest)
            else if Over(rest) then Copied(out + Written(l), AfterOver(rest))
            else Body(out + Written(l), rest.line, rest.rest, sum + BracesWritten(l))
  {
  }

  /** One round of the loop that copies the body. */
  method WriteBodyLine(line: Line, sum: int, file: InFile, out: OutFile)
    returns (over: bool, next: Line, braces: int)
    requires file.Valid()
    modifies file, out
    ensures file.Valid()
    ensures over ==> Copied(out.text, file.Rest(CR)) == Body(old(out.text), line, old(file.Rest(CR)), sum)
    ensures !over ==> old(file.Rest(CR)) == Chunk(next, file.Rest(CR)) &&
                      Body(out.text, next, file.Rest(CR), braces) == Body(old(out.text), line, old(file.Rest(CR)), sum)
  {
    ghost var rest := file.Rest(CR);
    BodyStep(out.text, line, rest, sum);
    over, braces := WriteLine(line, sum, out);
    if over {
      return over, [], braces;
    }
    var n;
    n, next := NextLine(file);
    over := n <= 0;
  }

  method WriteBody(l: Line, file: InFile, out: OutFile)
    requires file.Valid()
    modifies file, out
    ensures file.Valid()
    ensures Copied(out.text, file.Rest(CR)) == Body(old(out.text), l, old(file.Rest(CR)), 0)
  {
    var line, sum, over := l, 0, false;
    while !over
      invariant file.Valid()
      invariant (if over then Copied(out.text, file.Rest(CR)) else Body(out.text, line, file.Rest(CR), sum)) ==
                Body(old(out.text), l, old(file.Rest(CR)), 0)
      decreases !over, file.Rest(CR)
    {
      over, line, sum := WriteBodyLine(line, sum, file, out);
    }
  }

  /** The search for the brace, after the name was found; `l` is what the caller's line buffer holds at the end. */
  method WriteFunction(s: Line, file: InFile, out: OutFile, before: Line) returns (verdict: Verdict, l: Line)
    requires file.Valid() && Text(s) == s
    modifies file, out
    ensures file.Valid()
    ensures Checked(verdict, out.text, file.Rest(CR), l) == Signature(old(out.text), s, old(file.Rest(CR)), before)
  {
    var line, prependage := s, before;
    while true
      invariant file.Valid() && out.text == old(out.text)
      invariant Signature(out.text, line, file.Rest(CR), prependage) ==
                Signature(old(out.text), s, old(file.Rest(CR)), before)
      decreases file.Rest(CR)
    {
      l := Text(line);
      var result := CurlyBracketBeforeSemicolon(l);
      if result == 0 {
        prependage := prependage + l;
      } else if result == -1 {
        return NotFound, l;
      } else {
        break;
      }
      var n, next := NextLine(file);
      if n == -1 {
        return Stuck, l;
      }
      line := next;
    }
    out.Fwrite(prependage);
    WriteBody(line, file, out);
    return Found, l;
  }

  method CheckAndWriteFunc(s: Line, name: Line, file: InFile, out: OutFile, before: Line)
    returns (verdict: Verdict, l: Line)
    requires file.Valid() && Text(s) == s
    modifies file, out
    ensures file.Valid()
    ensures Checked(verdict, out.text, file.Rest(CR), l) == Check(old(out.text), s, name, old(file.Rest(CR)), before)
    decreases file.Rest(CR), |s|
  {
    var kind, next := DetermineType(s);
    match kind
    case NoContent => return NotFound, s;
    case CurlyBracket => return NotFound, s;
    case Semicolon =>
      if !Contains(s, STATIC) {
        out.Fwrite(EXTERN);
        out.Fwrite(s[..next]);
        out.Fwrite([CR]);
      }
      var i := FirstMeaningful(s, next);
      TextOfSuffix(s, i);
      verdict, l := CheckAndWriteFunc(s[i..], name, file, out, []);
      l := s[..i] + l;
    case Undefined =>
      var n, nextLine := NextLine(file);
      if n == -1 {
        return Stuck, s;
      }
      TextOfText(nextLine);
      verdict, l := CheckAndWriteFunc(Text(nextLine), name, file, out, before + Text(nextLine));
      l := s;
    case LeftParenthesis =>
      if (before != [] && Names(before, name)) || Names(s, name) {
        verdict, l := WriteFunction(s, file, out, before);
      } else {
        return NotFound, s;
      }
  }
}
