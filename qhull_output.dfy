/** Reading the triangulator's "i" output: a first line holding the number of
    faces, then one line per face listing its vertex indices. This is the
    post-processing half of `qhull_triangulation`; starting the external
    process and writing the points to it are not modelled. */
module QhullOutput {
  import opened Results
  import opened Decimal
  import opened Text

  /** The vertex indices of one polygon face, in cyclic order. */
  type Face = seq<nat>

  /** Why reading fails; the original panics in each case. */
  datatype ParseError =
    | MissingHeader                             // no first line at all
    | BadCount(header: string)                  // the first line is not a usize
    | BadIndex(line: nat, word: string)         // a word of face line `line` is not a usize
    | CountMismatch(declared: nat, found: nat)  // face count differs from the first line

  /** Parse the words of a face line in order; the first word that is not a
      usize is the error. */
  function ParseWords(ws: seq<string>): (r: Result<Face, string>)
    ensures r.Ok? ==> |r.value| == |ws|
    ensures r.Err? ==> r.error in ws && ParseUsize(r.error).None?
  {
    if ws == [] then Ok([])
    else match ParseUsize(ws[0])
      case None => Err(ws[0])
      case Some(v) =>
        match ParseWords(ws[1..])
        case Err(w) => Err(w)
        case Ok(f) => Ok([v] + f)
  }

  /** The words parse exactly when each one is a usize. */
  lemma {:induction false} ParseWordsOk(ws: seq<string>)
    ensures ParseWords(ws).Ok? <==> forall k :: 0 <= k < |ws| ==> ParseUsize(ws[k]).Some?
  {
    if ws != [] {
      ParseWordsOk(ws[1..]);
      assert forall j :: 1 <= j < |ws| ==> ws[j] == ws[1..][j - 1];
    }
  }

  /** Parsed words: the face holds the word values in order. */
  lemma {:induction false} ParseWordsValues(ws: seq<string>)
    requires ParseWords(ws).Ok?
    ensures forall k :: 0 <= k < |ws| ==> ParseUsize(ws[k]) == Some(ParseWords(ws).value[k])
  {
    if ws != [] {
      var v, rest := ParseUsize(ws[0]).value, ws[1..];
      ParseWordsValues(rest);
      assert ParseWords(ws).value == [v] + ParseWords(rest).value;
      assert forall j :: 1 <= j < |ws| ==> ws[j] == rest[j - 1];
    }
  }

  /** A failure is the first word that is not a usize. */
  lemma {:induction false} ParseWordsFirstBad(ws: seq<string>)
    requires ParseWords(ws).Err?
    ensures exists k :: && 0 <= k < |ws| && ws[k] == ParseWords(ws).error && ParseUsize(ws[k]).None?
                        && forall j :: 0 <= j < k ==> ParseUsize(ws[j]).Some?
  {
    if ParseUsize(ws[0]).None? {
      assert ws[0] == ParseWords(ws).error;
    } else {
      var rest := ws[1..];
      ParseWordsFirstBad(rest);
      var k :| && 0 <= k < |rest| && rest[k] == ParseWords(rest).error && ParseUsize(rest[k]).None?
               && forall j :: 0 <= j < k ==> ParseUsize(rest[j]).Some?;
      assert ParseWords(ws).error == ParseWords(rest).error;
      assert ws[k + 1] == rest[k];
      assert forall j :: 1 <= j < k + 1 ==> ws[j] == rest[j - 1];
    }
  }

  /** One face line: its white-space separated words, each a vertex index. */
  function ParseFace(line: string): (r: Result<Face, string>)
    ensures r.Ok? ==> |r.value| == |SplitWhitespace(line)|
    ensures r.Err? ==> IsWord(r.error) && ParseUsize(r.error).None?
  {
    ParseWords(SplitWhitespace(line))
  }

  /** The faces of lines 1 .. m-1, each read by `parse`, or the error of the
      first line that does not parse. The reader passes `ParseFace`; the
      lemmas about this function hold for any line parser. */
  function ParseFaceLines(lines: seq<string>, m: nat, parse: string -> Result<Face, string>)
    : (r: Result<seq<Face>, ParseError>)
    requires 1 <= m <= |lines|
    ensures r.Ok? ==> |r.value| == m - 1
    ensures r.Err? ==> r.error.BadIndex? && 1 <= r.error.line < m
  {
    if m == 1 then Ok([])
    else match ParseFaceLines(lines, m - 1, parse)
      case Err(e) => Err(e)
      case Ok(faces) =>
        match parse(lines[m - 1])
        case Err(w) => Err(BadIndex(m - 1, w))
        case Ok(f) => Ok(faces + [f])
  }

  /** The whole output: count line, face lines, then the count check. */
  function ParseOutput(lines: seq<string>): (r: Result<seq<Face>, ParseError>)
    ensures r == Err(MissingHeader) <==> lines == []
    ensures r.Ok? ==> |r.value| == |lines| - 1 && ParseUsize(lines[0]) == Some(|r.value|)
  {
    if lines == [] then Err(MissingHeader)
    else match ParseUsize(lines[0])
      case None => Err(BadCount(lines[0]))
      case Some(n) =>
        match ParseFaceLines(lines, |lines|, ParseFace)
        case Err(e) => Err(e)
        case Ok(faces) => if |faces| == n then Ok(faces) else Err(CountMismatch(n, |faces|))
  }

  /** Once a face line has failed, later lines do not change the error. */
  lemma {:induction false} ParseFaceLinesErrStays(lines: seq<string>, m: nat, m': nat,
                                                    parse: string -> Result<Face, string>)
    requires 1 <= m <= m' <= |lines|
    requires ParseFaceLines(lines, m, parse).Err?
    ensures ParseFaceLines(lines, m', parse) == ParseFaceLines(lines, m, parse)
    decreases m' - m
  {
    if m < m' {
      ParseFaceLinesErrStays(lines, m, m' - 1, parse);
    }
  }

  /** Reads the output line by line, pushing each face as it is parsed. */
  method ReadTriangulation(lines: seq<string>) returns (r: Result<seq<Face>, ParseError>)
    ensures r == ParseOutput(lines)
  {
    if |lines| == 0 {
      return Err(MissingHeader);
    }
    var header := ParseUsize(lines[0]);
    if header.None? {
      return Err(BadCount(lines[0]));
    }
    var n := header.value;
    var res: seq<Face> := [];
    for i := 1 to |lines|
      invariant ParseFaceLines(lines, i, ParseFace) == Ok(res)
    {
      var face := ParseFace(lines[i]);
      if face.Err? {
        ParseFaceLinesErrStays(lines, i + 1, |lines|, ParseFace);
        return Err(BadIndex(i, face.error));
      }
      res := res + [face.value];
    }
    if |res| != n {
      return Err(CountMismatch(n, |res|));
    }
    return Ok(res);
  }

  // ---------------------------------------------------------------------
  // What the reader accepts and what it returns

  /** The face lines parse exactly when each of them does. */
  lemma {:induction false} ParseFaceLinesOk(lines: seq<string>, m: nat, parse: string -> Result<Face, string>)
    requires 1 <= m <= |lines|
    ensures ParseFaceLines(lines, m, parse).Ok? <==> forall i :: 1 <= i < m ==> parse(lines[i]).Ok?
  {
    if m > 1 {
      ParseFaceLinesOk(lines, m - 1, parse);
    }
  }

  /** Parsed face lines: one face per line, face k from line k + 1. */
  lemma {:induction false} ParseFaceLinesValue(lines: seq<string>, m: nat, parse: string -> Result<Face, string>)
    requires 1 <= m <= |lines|
    requires ParseFaceLines(lines, m, parse).Ok?
    ensures |ParseFaceLines(lines, m, parse).value| == m - 1
    ensures forall k :: 0 <= k < m - 1 ==> Ok(ParseFaceLines(lines, m, parse).value[k]) == parse(lines[k + 1])
  {
    if m > 1 {
      var prev := ParseFaceLines(lines, m - 1, parse);
      assert prev.Ok?;
      ParseFaceLinesValue(lines, m - 1, parse);
      var f := parse(lines[m - 1]);
      assert ParseFaceLines(lines, m, parse).value == prev.value + [f.value];
    }
  }

  /** A failure in the face lines names the first line that does not parse
      and the error its parse gave. */
  lemma {:induction false} ParseFaceLinesErr(lines: seq<string>, m: nat, parse: string -> Result<Face, string>)
    requires 1 <= m <= |lines|
    requires ParseFaceLines(lines, m, parse).Err?
    ensures var e := ParseFaceLines(lines, m, parse).error;
            && e.BadIndex? && 1 <= e.line < m
            && parse(lines[e.line]) == Err(e.word)
            && forall i :: 1 <= i < e.line ==> parse(lines[i]).Ok?
  {
    var prev := ParseFaceLines(lines, m - 1, parse);
    if prev.Err? {
      ParseFaceLinesErr(lines, m - 1, parse);
    } else {
      ParseFaceLinesOk(lines, m - 1, parse);
    }
  }

  /** Accepted output: a count line whose value is the number of the lines
      after it, each of which is a list of usize words. */
  predicate WellFormedOutput(lines: seq<string>) {
    && |lines| >= 1
    && ParseUsize(lines[0]) == Some(|lines| - 1)
    && forall i :: 1 <= i < |lines| ==> ParseFace(lines[i]).Ok?
  }

  lemma ParseOutputSucceeds(lines: seq<string>)
    ensures ParseOutput(lines).Ok? <==> WellFormedOutput(lines)
    ensures ParseOutput(lines).Ok? ==>
              var faces := ParseOutput(lines).value;
              && |faces| == |lines| - 1
              && forall k :: 0 <= k < |faces| ==> Ok(faces[k]) == ParseFace(lines[k + 1])
  {
    if lines != [] {
      ParseFaceLinesOk(lines, |lines|, ParseFace);
      if ParseFaceLines(lines, |lines|, ParseFace).Ok? {
        ParseFaceLinesValue(lines, |lines|, ParseFace);
      }
    }
  }

  /** Each error names what went wrong, checked in the order the original
      panics: the first line, then each face line in order, then the count. */
  lemma ParseOutputFails(lines: seq<string>)
    ensures ParseOutput(lines) == Err(MissingHeader) <==> lines == []
    ensures ParseOutput(lines).Err? && ParseOutput(lines).error.BadCount? <==>
              lines != [] && ParseUsize(lines[0]).None?
    ensures ParseOutput(lines).Err? && ParseOutput(lines).error.BadIndex? ==>
              var e := ParseOutput(lines).error;
              && ParseUsize(lines[0]).Some?
              && 1 <= e.line < |lines|
              && ParseFace(lines[e.line]) == Err(e.word)
              && forall i :: 1 <= i < e.line ==> ParseFace(lines[i]).Ok?
    ensures ParseOutput(lines).Err? && ParseOutput(lines).error.CountMismatch? ==>
              var e := ParseOutput(lines).error;
              && ParseUsize(lines[0]) == Some(e.declared)
              && (forall i :: 1 <= i < |lines| ==> ParseFace(lines[i]).Ok?)
              && e.found == |lines| - 1
              && e.declared != e.found
  {
    if lines != [] && ParseUsize(lines[0]).Some? {
      if ParseFaceLines(lines, |lines|, ParseFace).Err? {
        ParseFaceLinesErr(lines, |lines|, ParseFace);
      } else {
        ParseFaceLinesOk(lines, |lines|, ParseFace);
        ParseFaceLinesValue(lines, |lines|, ParseFace);
      }
    }
  }

  /** A blank line is a face with no vertices; it still counts as a face. */
  lemma BlankLineIsEmptyFace(line: string)
    requires IsBlank(line)
    ensures ParseFace(line) == Ok([])
  {
    SplitBlank(line);
  }

  // ---------------------------------------------------------------------
  // The reader inverts the triangulator's printing

  function ShowAll(f: Face): (ws: seq<string>)
    ensures |ws| == |f|
  {
    seq(|f|, k requires 0 <= k < |f| => Show(f[k]))
  }

  /** A face printed with single spaces between its indices. */
  function RenderFace(f: Face): string {
    JoinWords(ShowAll(f))
  }

  /** The whole "i" output: the face count, then one line per face. */
  function RenderOutput(faces: seq<Face>): (lines: seq<string>)
    ensures |lines| == |faces| + 1
  {
    [Show(|faces|)] + seq(|faces|, k requires 0 <= k < |faces| => RenderFace(faces[k]))
  }

  predicate FitsUsize(faces: seq<Face>) {
    && |faces| < USIZE_LIMIT
    && forall k, j :: 0 <= k < |faces| && 0 <= j < |faces[k]| ==> faces[k][j] < USIZE_LIMIT
  }

  lemma DigitsAreWord(s: string)
    requires s != [] && AllDigits(s)
    ensures IsWord(s)
  {
    forall i | 0 <= i < |s| ensures !IsWhitespace(s[i]) {
      assert IsDigit(s[i]);
    }
  }

  lemma ParseRenderFace(f: Face)
    requires forall j :: 0 <= j < |f| ==> f[j] < USIZE_LIMIT
    ensures ParseFace(RenderFace(f)) == Ok(f)
  {
    var ws := ShowAll(f);
    forall k | 0 <= k < |ws| ensures IsWord(ws[k]) && ParseUsize(ws[k]) == Some(f[k]) {
      DigitsAreWord(ws[k]);
      ParseUsizeShow(f[k]);
    }
    SplitJoinWords(ws);
    ParseWordsOk(ws);
    ParseWordsValues(ws);
    var r := ParseWords(ws);
    assert r.value == f by {
      assert forall k :: 0 <= k < |f| ==> Some(r.value[k]) == Some(f[k]);
    }
  }

  lemma ParseRenderOutput(faces: seq<Face>)
    requires FitsUsize(faces)
    ensures ParseOutput(RenderOutput(faces)) == Ok(faces)
  {
    var lines := RenderOutput(faces);
    ParseUsizeShow(|faces|);
    assert lines[0] == Show(|faces|);
    forall i | 1 <= i < |lines| ensures ParseFace(lines[i]) == Ok(faces[i - 1]) {
      assert lines[i] == RenderFace(faces[i - 1]);
      ParseRenderFace(faces[i - 1]);
    }
    assert WellFormedOutput(lines);
    ParseOutputSucceeds(lines);
    var r := ParseOutput(lines);
    forall k | 0 <= k < |faces| ensures r.value[k] == faces[k] {
      assert Ok(r.value[k]) == ParseFace(lines[k + 1]);
    }
    assert r.value == faces;
  }

  /** A character that the triangulator prints: a digit or a space. */
  predicate Printed(c: char) {
    IsDigit(c) || c == ' '
  }

  lemma {:induction false} JoinWordsPrinted(ws: seq<string>)
    requires forall k, i :: 0 <= k < |ws| && 0 <= i < |ws[k]| ==> IsDigit(ws[k][i])
    ensures forall i :: 0 <= i < |JoinWords(ws)| ==> Printed(JoinWords(ws)[i])
  {
    if |ws| > 1 {
      JoinWordsPrinted(ws[1..]);
      var s := JoinWords(ws);
      assert s == ws[0] + " " + JoinWords(ws[1..]);
      forall i | 0 <= i < |s| ensures Printed(s[i]) {
        if i > |ws[0]| {
          assert s[i] == JoinWords(ws[1..])[i - |ws[0]| - 1];
        }
      }
    }
  }

  lemma RenderedLinesArePlain(faces: seq<Face>)
    ensures forall i :: 0 <= i < |RenderOutput(faces)| ==> IsPlainLine(RenderOutput(faces)[i])
  {
    var lines := RenderOutput(faces);
    forall i | 0 <= i < |lines| ensures IsPlainLine(lines[i]) {
      if i > 0 {
        JoinWordsPrinted(ShowAll(faces[i - 1]));
      }
      assert forall j :: 0 <= j < |lines[i]| ==> Printed(lines[i][j]);
    }
  }

  /** End to end: the printed output, split into lines by the reader, gives
      back the faces that were printed. */
  lemma ReadPrintedOutput(faces: seq<Face>)
    requires FitsUsize(faces)
    ensures ParseOutput(Lines(JoinLines(RenderOutput(faces)))) == Ok(faces)
  {
    RenderedLinesArePlain(faces);
    LinesJoinLines(RenderOutput(faces));
    ParseRenderOutput(faces);
  }
}
