/**
 * The line session: input is a character stream in which only a carriage
 * return completes a line; running out of input before one is end of input,
 * and the partial line is discarded.
 */
module Lines {
  import opened Wrappers

  const CR: char := '\r'

  /** What the session writes after every line it reads. */
  const CRLF: string := "\r\n"

  /**
   * The first complete line and the input after its carriage return, or None
   * (end of input) when no carriage return remains.
   */
  function ReadLine(input: string): (r: Option<(string, string)>)
    ensures r.None? <==> CR !in input
    ensures r.Some? ==> CR !in r.value.0 && input == r.value.0 + [CR] + r.value.1
    ensures r.Some? ==> |r.value.1| < |input|
  {
    if |input| == 0 then None
    else if input[0] == CR then Some(([], input[1..]))
    else
      match ReadLine(input[1..])
      case None => None
      case Some((line, rest)) =>
        assert input == [input[0]] + input[1..];
        Some(([input[0]] + line, rest))
  }

  /** A line followed by a carriage return is read back exactly. */
  lemma {:induction false} ReadLineOfLine(line: string, rest: string)
    requires CR !in line
    ensures ReadLine(line + [CR] + rest) == Some((line, rest))
    decreases |line|
  {
    var input := line + [CR] + rest;
    if |line| == 0 {
      assert input[0] == CR && input[1..] == rest;
    } else {
      assert input[0] == line[0] != CR;
      assert input[1..] == line[1..] + [CR] + rest;
      ReadLineOfLine(line[1..], rest);
      assert [line[0]] + line[1..] == line;
    }
  }

  /**
   * Replace every character but a carriage return by `*`. Nothing typed into a
   * secret prompt is echoed; comparing a run on some input with the run on its
   * masked copy is how the model states that the transcript ignores the text.
   */
  function Mask(s: string): (m: string)
    ensures |m| == |s|
    ensures forall i :: 0 <= i < |s| ==> (m[i] == CR <==> s[i] == CR)
    ensures forall i :: 0 <= i < |s| ==> m[i] == CR || m[i] == '*'
  {
    if |s| == 0 then [] else [if s[0] == CR then CR else '*'] + Mask(s[1..])
  }

  lemma {:induction false} MaskAppend(a: string, b: string)
    ensures Mask(a + b) == Mask(a) + Mask(b)
    decreases |a|
  {
    if |a| > 0 {
      assert (a + b)[1..] == a[1..] + b;
      MaskAppend(a[1..], b);
    } else {
      assert a + b == b;
    }
  }

  /** Masking keeps the line structure: the same lines, of the same lengths, are read. */
  lemma ReadLineOfMask(input: string)
    ensures ReadLine(Mask(input)).None? <==> ReadLine(input).None?
    ensures ReadLine(input).Some? ==>
              ReadLine(Mask(input)) == Some((Mask(ReadLine(input).value.0), Mask(ReadLine(input).value.1)))
  {
    var m := Mask(input);
    assert CR in m <==> CR in input by {
      if CR in m {
        var i :| 0 <= i < |m| && m[i] == CR;
        assert input[i] == CR;
      }
      if CR in input {
        var i :| 0 <= i < |input| && input[i] == CR;
        assert m[i] == CR;
      }
    }
    match ReadLine(input)
    case None =>
    case Some((line, rest)) =>
      MaskAppend(line + [CR], rest);
      MaskAppend(line, [CR]);
      assert Mask([CR]) == [CR];
      var ml := Mask(line);
      assert forall i :: 0 <= i < |ml| ==> ml[i] != CR;
      ReadLineOfLine(ml, Mask(rest));
  }
}
