/** Line-ending detection and normalisation (packages/foundation/src/bytes.ts). */
module LineEndings {
  import opened Counting

  datatype Eol = Lf | Crlf

  predicate IsBreak(c: char) {
    c == '\r' || c == '\n'
  }

  predicate Unbroken(line: string) {
    forall i | 0 <= i < |line| :: !IsBreak(line[i])
  }

  function BreakText(eol: Eol): string {
    if eol == Lf then "\n" else "\r\n"
  }

  /** The parts between line breaks, where "\r\n", "\r" and "\n" each count as one break. */
  function Lines(text: string): (lines: seq<string>)
    ensures lines != []
    ensures forall i | 0 <= i < |lines| :: Unbroken(lines[i])
    decreases |text|
  {
    if text == "" then [""]
    else if text[0] == '\r' && |text| > 1 && text[1] == '\n' then [""] + Lines(text[2..])
    else if IsBreak(text[0]) then [""] + Lines(text[1..])
    else
      var rest := Lines(text[1..]);
      [[text[0]] + rest[0]] + rest[1..]
  }

  function Unlines(lines: seq<string>, eol: Eol): string
    requires lines != []
  {
    if |lines| == 1 then lines[0] else lines[0] + BreakText(eol) + Unlines(lines[1..], eol)
  }

  function NormalizeToEol(text: string, eol: Eol): string {
    Unlines(Lines(text), eol)
  }

  /** Line feeds preceded by a carriage return, and the other line feeds. */
  function CountBreaks(text: string): (n: (nat, nat)) {
    if text == "" then (0, 0)
    else
      var last := |text| - 1;
      var (crlf, lf) := CountBreaks(text[..last]);
      if text[last] != '\n' then (crlf, lf)
      else if last > 0 && text[last - 1] == '\r' then (crlf + 1, lf)
      else (crlf, lf + 1)
  }

  function EolOf(text: string): Eol {
    var (crlf, lf) := CountBreaks(text);
    if crlf > lf then Crlf else Lf
  }

  method DetectEol(text: string) returns (eol: Eol)
    ensures eol == EolOf(text)
  {
    var crlf, lf := 0, 0;
    var i := 0;
    while i < |text|
      invariant 0 <= i <= |text|
      invariant (crlf, lf) == CountBreaks(text[..i])
    {
      assert text[..i + 1][..i] == text[..i];
      if text[i] == '\n' {
        if i > 0 && text[i - 1] == '\r' {
          crlf := crlf + 1;
        } else {
          lf := lf + 1;
        }
      }
      i := i + 1;
    }
    assert text[..i] == text;
    return if crlf > lf then Crlf else Lf;
  }

  predicate PairedAt(text: string, i: nat) {
    0 < i < |text| && text[i] == '\n' && text[i - 1] == '\r'
  }

  predicate BareAt(text: string, i: nat) {
    i < |text| && text[i] == '\n' && !PairedAt(text, i)
  }

  lemma {:induction false} BreaksCounted(text: string, n: nat)
    requires n <= |text|
    ensures CountBreaks(text[..n]) == (Marks(n, (i: nat) => PairedAt(text, i)), Marks(n, (i: nat) => BareAt(text, i)))
  {
    var paired, bare := (i: nat) => PairedAt(text, i), (i: nat) => BareAt(text, i);
    if n == 0 {
      NoMarks(paired);
      NoMarks(bare);
    } else {
      BreaksCounted(text, n - 1);
      assert text[..n][..n - 1] == text[..n - 1];
      MarksNext(n - 1, paired);
      MarksNext(n - 1, bare);
    }
  }

  /** The style is "crlf" exactly when more line feeds follow a carriage return
      than do not; a tie is "lf". */
  lemma EolIsMajority(text: string)
    ensures EolOf(text) == Crlf <==> Marks(|text|, (i: nat) => PairedAt(text, i)) > Marks(|text|, (i: nat) => BareAt(text, i))
  {
    BreaksCounted(text, |text|);
    assert text[..|text|] == text;
  }

  // ----- What normalisation promises -----

  lemma {:induction false} LinesOfUnbroken(line: string)
    requires Unbroken(line)
    ensures Lines(line) == [line]
  {
    if line != "" {
      LinesOfUnbroken(line[1..]);
      assert [line[0]] + line[1..] == line;
    }
  }

  lemma {:induction false} LinesAtBreak(line: string, rest: string, eol: Eol)
    requires Unbroken(line)
    ensures Lines(line + BreakText(eol) + rest) == [line] + Lines(rest)
  {
    var whole := line + BreakText(eol) + rest;
    if line == "" {
      assert whole[|BreakText(eol)|..] == rest;
    } else {
      assert whole[1..] == line[1..] + BreakText(eol) + rest;
      LinesAtBreak(line[1..], rest, eol);
      assert [line[0]] + line[1..] == line;
    }
  }

  /** Joined lines split back into the same lines. */
  lemma {:induction false} LinesOfUnlines(lines: seq<string>, eol: Eol)
    requires lines != []
    requires forall i | 0 <= i < |lines| :: Unbroken(lines[i])
    ensures Lines(Unlines(lines, eol)) == lines
  {
    if |lines| == 1 {
      LinesOfUnbroken(lines[0]);
    } else {
      LinesAtBreak(lines[0], Unlines(lines[1..], eol), eol);
      LinesOfUnlines(lines[1..], eol);
    }
  }

  /** Only the last normalisation matters, and it keeps every line. */
  lemma NormalizeTwice(text: string, first: Eol, second: Eol)
    ensures NormalizeToEol(NormalizeToEol(text, first), second) == NormalizeToEol(text, second)
    ensures Lines(NormalizeToEol(text, first)) == Lines(text)
  {
    LinesOfUnlines(Lines(text), first);
  }

  predicate AllPaired(text: string) {
    forall i | 0 <= i < |text| :: text[i] == '\n' ==> i > 0 && text[i - 1] == '\r'
  }

  lemma {:induction false} CountsOfPaired(text: string)
    requires AllPaired(text)
    ensures CountBreaks(text).1 == 0
    ensures CountBreaks(text).0 > 0 <==> '\n' in text
  {
    if text != "" {
      CountsOfPaired(text[..|text| - 1]);
      assert text == text[..|text| - 1] + [text[|text| - 1]];
    }
  }

  lemma {:induction false} CountsWithoutReturns(text: string)
    requires '\r' !in text
    ensures CountBreaks(text).0 == 0
  {
    if text != "" {
      CountsWithoutReturns(text[..|text| - 1]);
    }
  }

  lemma {:induction false} UnlinesShape(lines: seq<string>, eol: Eol)
    requires lines != []
    requires forall i | 0 <= i < |lines| :: Unbroken(lines[i])
    ensures eol == Lf ==> '\r' !in Unlines(lines, eol)
    ensures eol == Crlf ==> AllPaired(Unlines(lines, eol))
    ensures '\n' in Unlines(lines, eol) <==> |lines| > 1
  {
    if |lines| > 1 {
      var rest := Unlines(lines[1..], eol);
      UnlinesShape(lines[1..], eol);
      var whole := lines[0] + BreakText(eol) + rest;
      assert whole[|lines[0]| + |BreakText(eol)| - 1] == '\n';
      assert forall i | 0 <= i < |lines[0]| :: whole[i] == lines[0][i];
      assert '\r' !in lines[0] && '\n' !in lines[0];
      if eol == Crlf {
        forall i | 0 <= i < |whole| && whole[i] == '\n'
          ensures i > 0 && whole[i - 1] == '\r'
        {
          if i >= |lines[0]| + 2 {
            assert whole[i] == rest[i - |lines[0]| - 2];
          }
        }
      }
    }
  }

  /** After a document is normalised its style is detected as the requested one,
      except that a text without any line break always reads as "lf". */
  lemma DetectAfterNormalize(text: string, eol: Eol)
    ensures EolOf(NormalizeToEol(text, eol)) == eol <==> eol == Lf || |Lines(text)| > 1
  {
    var result := NormalizeToEol(text, eol);
    UnlinesShape(Lines(text), eol);
    if eol == Lf {
      CountsWithoutReturns(result);
    } else {
      CountsOfPaired(result);
    }
  }
}
