/** Replacing the lines between two markers of a document (scripts/sync-moonshot-docs.ts:15-51). */
module MarkedBlock {
  import opened Text

  predicate OccursAt(text: string, pattern: string, i: int) {
    0 <= i && i + |pattern| <= |text| && text[i..i + |pattern|] == pattern
  }

  predicate Occurs(pattern: string, text: string) {
    exists i :: 0 <= i <= |text| && OccursAt(text, pattern, i)
  }

  /** `text.indexOf(pattern, from)` for 0 <= from <= |text|. */
  function IndexOf(text: string, pattern: string, from: nat): (r: int)
    requires from <= |text|
    ensures r == -1 || (from <= r && OccursAt(text, pattern, r))
    ensures r == -1 ==> forall i :: from <= i ==> !OccursAt(text, pattern, i)
    ensures r >= 0 ==> forall i :: from <= i < r ==> !OccursAt(text, pattern, i)
    decreases |text| - from
  {
    if OccursAt(text, pattern, from) then from
    else if from == |text| then -1
    else IndexOf(text, pattern, from + 1)
  }

  /** `text.lastIndexOf("\n", from)`. */
  function LastNewline(text: string, from: int): (r: int)
    requires from <= |text|
    ensures -1 <= r <= from || (r == -1 && from < -1)
    ensures r >= 0 ==> r < |text| && text[r] == '\n'
    ensures forall i :: 0 <= i && r < i <= from && i < |text| ==> text[i] != '\n'
    decreases from + 1
  {
    if from < 0 then -1
    else if from < |text| && text[from] == '\n' then from
    else LastNewline(text, from - 1)
  }

  datatype Result = Ok(text: string) | MissingStart | MissingEnd

  /** Where a document is cut: the start of the start marker's line, the start marker, and
      the end of the end marker's line. */
  datatype Cut = Cut(lineStart: nat, marker: nat, lineEnd: nat)

  function Body(indent: string, lines: seq<string>): string {
    if lines == [] then "" else indent + lines[0] + "\n" + Body(indent, lines[1..])
  }

  /** The block and its lines, joined with newlines, each behind the indent. */
  function Block(indent: string, startMarker: string, endMarker: string, lines: seq<string>): string {
    indent + startMarker + "\n" + Body(indent, lines) + indent + endMarker
  }

  /** `text.slice(from, to)` for bounds inside the text. */
  function Slice(text: string, from: nat, to: nat): string
    requires to <= |text|
  {
    if from <= to then text[from..to] else ""
  }

  function FindCut(text: string, startMarker: string, endMarker: string): (r: Option<Cut>)
    ensures r.Some? ==> r.value.lineStart <= |text| && r.value.marker <= |text| && r.value.lineEnd <= |text|
  {
    var startIndex := IndexOf(text, startMarker, 0);
    if startIndex == -1 then None
    else
      var endIndex := IndexOf(text, endMarker, startIndex);
      if endIndex == -1 then None
      else
        var lineEnd := IndexOf(text, "\n", endIndex);
        Some(Cut(LastNewline(text, startIndex) + 1, startIndex, if lineEnd == -1 then |text| else lineEnd + 1))
  }

  /** replaceBlockLines. */
  function ReplaceBlockLines(text: string, startMarker: string, endMarker: string, lines: seq<string>): Result {
    if IndexOf(text, startMarker, 0) == -1 then MissingStart
    else
      match FindCut(text, startMarker, endMarker)
      case None => MissingEnd
      case Some(cut) =>
        var indent := Slice(text, cut.lineStart, cut.marker);
        var before, after := text[..cut.lineStart], text[cut.lineEnd..];
        var block := Block(indent, startMarker, endMarker, lines);
        Ok(if after == "" then before + block else before + block + "\n" + after)
  }

  // ---------- where a document is cut ----------

  /** The cut goes by the first start marker and the line it is on. */
  lemma CutMeaning(text: string, startMarker: string, endMarker: string, cut: Cut)
    requires FindCut(text, startMarker, endMarker) == Some(cut) && startMarker != "" && startMarker[0] != '\n'
    ensures OccursAt(text, startMarker, cut.marker)
    ensures forall i :: 0 <= i < cut.marker ==> !OccursAt(text, startMarker, i)
    ensures cut.lineStart <= cut.marker && (cut.lineStart == 0 || text[cut.lineStart - 1] == '\n')
    ensures '\n' !in text[cut.lineStart..cut.marker]
  {
    assert text[cut.marker] == startMarker[0];
  }

  lemma NewlineAt(text: string, from: nat)
    requires from <= |text|
    ensures var r := IndexOf(text, "\n", from);
            && (r == -1 ==> forall i :: from <= i < |text| ==> text[i] != '\n')
            && (r >= 0 ==> r < |text| && text[r] == '\n' && forall i :: from <= i < r ==> text[i] != '\n')
  {
    var r := IndexOf(text, "\n", from);
    forall i | from <= i < |text| && (r == -1 || i < r) ensures text[i] != '\n' {
      assert !OccursAt(text, "\n", i);
      assert text[i..i + 1] == [text[i]];
    }
    if r >= 0 {
      assert text[r..r + 1] == [text[r]];
    }
  }

  /** The shape of a document around the block. */
  datatype Frame = Frame(before: string, indent: string, after: string)

  function FrameOf(text: string, cut: Cut): Frame
    requires cut.lineStart <= |text| && cut.marker <= |text| && cut.lineEnd <= |text|
  {
    Frame(text[..cut.lineStart], Slice(text, cut.lineStart, cut.marker), text[cut.lineEnd..])
  }

  /** A document with the block in the frame; nothing follows a block that ends the text. */
  function Rebuilt(f: Frame, startMarker: string, endMarker: string, lines: seq<string>): string {
    var text := f.before + Block(f.indent, startMarker, endMarker, lines);
    if f.after == "" then text else text + "\n" + f.after
  }

  /** The text before the start marker's line and after the end marker's line is kept, except
      that the newline after a block that ends the document is dropped. */
  lemma ReplaceKeepsFrame(text: string, startMarker: string, endMarker: string, lines: seq<string>)
    ensures var cut := FindCut(text, startMarker, endMarker);
            ReplaceBlockLines(text, startMarker, endMarker, lines)
            == if cut.Some? then Ok(Rebuilt(FrameOf(text, cut.value), startMarker, endMarker, lines))
               else if Occurs(startMarker, text) then MissingEnd else MissingStart
  {
  }

  // ---------- the text around the block ----------

  /** `lines.join("\n")`. */
  function JoinLines(lines: seq<string>): string {
    if lines == [] then "" else if |lines| == 1 then lines[0] else lines[0] + "\n" + JoinLines(lines[1..])
  }

  function Indented(indent: string, lines: seq<string>): (r: seq<string>)
    ensures |r| == |lines| && forall i :: 0 <= i < |r| ==> r[i] == indent + lines[i]
  {
    seq(|lines|, i requires 0 <= i < |lines| => indent + lines[i])
  }

  lemma {:induction false} BodyIsJoined(indent: string, lines: seq<string>, last: string)
    ensures Body(indent, lines) + (indent + last) == JoinLines(Indented(indent, lines + [last]))
  {
    var all := Indented(indent, lines + [last]);
    if lines == [] {
      assert all == [indent + last];
    } else {
      BodyIsJoined(indent, lines[1..], last);
      assert all[1..] == Indented(indent, lines[1..] + [last]);
      assert Body(indent, lines) + (indent + last) == all[0] + "\n" + (Body(indent, lines[1..]) + (indent + last));
    }
  }

  lemma BlockIsJoined(indent: string, startMarker: string, endMarker: string, lines: seq<string>)
    ensures Block(indent, startMarker, endMarker, lines)
            == JoinLines(Indented(indent, [startMarker] + lines + [endMarker]))
  {
    var all := [startMarker] + lines;
    BodyIsJoined(indent, all, endMarker);
    assert all[0] == startMarker && all[1..] == lines;
    assert Body(indent, all) == indent + startMarker + "\n" + Body(indent, lines);
    assert Block(indent, startMarker, endMarker, lines)
           == indent + startMarker + "\n" + Body(indent, lines) + (indent + endMarker);
  }

  /** The first start marker is at s and the first end marker from there on is at e. */
  ghost predicate MarksBlock(text: string, startMarker: string, endMarker: string, s: nat, e: nat) {
    && OccursAt(text, startMarker, s) && (forall i :: 0 <= i < s ==> !OccursAt(text, startMarker, i))
    && s <= e && OccursAt(text, endMarker, e) && (forall i :: s <= i < e ==> !OccursAt(text, endMarker, i))
  }

  /** `before` is the text up to the line that position s is on, and `indent` that line up to s. */
  predicate StartsLine(text: string, s: nat, before: string, indent: string) {
    && s <= |text| && before + indent == text[..s]
    && '\n' !in indent && (before == "" || before[|before| - 1] == '\n')
  }

  /** `after` is the text behind the line that position e is on. */
  predicate EndsLine(text: string, e: nat, after: string) {
    && e <= |text| - |after| && text[|text| - |after|..] == after
    && (forall i :: e <= i < |text| - |after| - 1 ==> text[i] != '\n')
    && (after != "" ==> e < |text| - |after| && text[|text| - |after| - 1] == '\n')
  }

  /** The block goes from the line of the start marker at s to the line of the end marker at e.
      Its lines are replaced by the markers and the new lines, all indented as the start marker
      was, and the text before and behind is kept, except that a newline that ends the text
      behind the block is dropped. */
  predicate IsReplacement(text: string, startMarker: string, endMarker: string, lines: seq<string>, r: string,
                          s: nat, e: nat, before: string, indent: string, after: string)
  {
    && StartsLine(text, s, before, indent) && EndsLine(text, e, after)
    && r == before + JoinLines(Indented(indent, [startMarker] + lines + [endMarker]))
            + if after == "" then "" else "\n" + after
  }

  ghost predicate IsReplaced(text: string, startMarker: string, endMarker: string, lines: seq<string>, r: string) {
    exists s: nat, e: nat, before: string, indent: string, after: string ::
      && MarksBlock(text, startMarker, endMarker, s, e)
      && IsReplacement(text, startMarker, endMarker, lines, r, s, e, before, indent, after)
  }

  lemma IndexOfIs(text: string, pattern: string, from: nat, i: nat)
    requires from <= i && OccursAt(text, pattern, i) && forall j :: from <= j < i ==> !OccursAt(text, pattern, j)
    ensures IndexOf(text, pattern, from) == i
  {
  }

  lemma CutExists(text: string, startMarker: string, endMarker: string)
    ensures FindCut(text, startMarker, endMarker).Some?
            <==> exists s: nat, e: nat :: MarksBlock(text, startMarker, endMarker, s, e)
  {
    var i := IndexOf(text, startMarker, 0);
    if i >= 0 {
      var e := IndexOf(text, endMarker, i);
      if e >= 0 {
        assert MarksBlock(text, startMarker, endMarker, i, e);
      }
    }
    forall s: nat, e: nat | MarksBlock(text, startMarker, endMarker, s, e)
      ensures i == s && IndexOf(text, endMarker, i) == e
    {
      IndexOfIs(text, startMarker, 0, s);
      IndexOfIs(text, endMarker, s, e);
    }
  }

  lemma CutMarksBlock(text: string, startMarker: string, endMarker: string, cut: Cut, e: int)
    requires FindCut(text, startMarker, endMarker) == Some(cut) && e == IndexOf(text, endMarker, cut.marker)
    ensures e >= 0 && MarksBlock(text, startMarker, endMarker, cut.marker, e)
  {
  }

  lemma CutStartsLine(text: string, startMarker: string, endMarker: string, cut: Cut, f: Frame)
    requires startMarker != "" && startMarker[0] != '\n'
    requires FindCut(text, startMarker, endMarker) == Some(cut) && f == FrameOf(text, cut)
    ensures StartsLine(text, cut.marker, f.before, f.indent)
  {
    CutMeaning(text, startMarker, endMarker, cut);
  }

  lemma LineEndsAt(text: string, e: nat, lineEnd: nat)
    requires e <= |text|
    requires var n := IndexOf(text, "\n", e); lineEnd == if n == -1 then |text| else n + 1
    ensures lineEnd <= |text| && EndsLine(text, e, text[lineEnd..])
  {
    NewlineAt(text, e);
  }

  lemma CutEndsLine(text: string, startMarker: string, endMarker: string, cut: Cut, f: Frame, e: nat)
    requires FindCut(text, startMarker, endMarker) == Some(cut) && f == FrameOf(text, cut)
    requires e == IndexOf(text, endMarker, cut.marker)
    ensures EndsLine(text, e, f.after)
  {
    LineEndsAt(text, e, cut.lineEnd);
  }

  lemma RebuiltReplaces(text: string, startMarker: string, endMarker: string, lines: seq<string>, s: nat, e: nat,
                        f: Frame)
    requires StartsLine(text, s, f.before, f.indent) && EndsLine(text, e, f.after)
    ensures IsReplacement(text, startMarker, endMarker, lines, Rebuilt(f, startMarker, endMarker, lines),
                          s, e, f.before, f.indent, f.after)
  {
    BlockIsJoined(f.indent, startMarker, endMarker, lines);
    var block := f.before + Block(f.indent, startMarker, endMarker, lines);
    assert f.after != "" ==> block + "\n" + f.after == block + ("\n" + f.after);
  }

  lemma CutReplaces(text: string, startMarker: string, endMarker: string, lines: seq<string>, cut: Cut)
    requires startMarker != "" && startMarker[0] != '\n'
    requires FindCut(text, startMarker, endMarker) == Some(cut)
    ensures IsReplaced(text, startMarker, endMarker, lines, Rebuilt(FrameOf(text, cut), startMarker, endMarker, lines))
  {
    var f, e := FrameOf(text, cut), IndexOf(text, endMarker, cut.marker);
    CutMarksBlock(text, startMarker, endMarker, cut, e);
    CutStartsLine(text, startMarker, endMarker, cut, f);
    CutEndsLine(text, startMarker, endMarker, cut, f, e);
    BlockIsJoined(f.indent, startMarker, endMarker, lines);
    RebuiltReplaces(text, startMarker, endMarker, lines, cut.marker, e, f);
  }

  /** What the caller gets: the text with the block replaced, or which marker is missing. */
  lemma TextAroundIsKept(text: string, startMarker: string, endMarker: string, lines: seq<string>)
    requires startMarker != "" && startMarker[0] != '\n'
    ensures var r := ReplaceBlockLines(text, startMarker, endMarker, lines);
            && (r.MissingStart? <==> !Occurs(startMarker, text))
            && (r.MissingEnd? <==>
                  Occurs(startMarker, text) && forall s: nat, e: nat :: !MarksBlock(text, startMarker, endMarker, s, e))
            && (r.Ok? ==> IsReplaced(text, startMarker, endMarker, lines, r.text))
  {
    var r, found := ReplaceBlockLines(text, startMarker, endMarker, lines), FindCut(text, startMarker, endMarker);
    ReplaceKeepsFrame(text, startMarker, endMarker, lines);
    CutExists(text, startMarker, endMarker);
    if r.Ok? {
      CutReplaces(text, startMarker, endMarker, lines, found.value);
    }
  }

  predicate EndsInNewline(text: string) {
    text != "" && text[|text| - 1] == '\n'
  }

  /** The new text ends in a newline exactly when the old one does and something follows the
      block in it. */
  lemma FinalNewlineIff(text: string, startMarker: string, endMarker: string, lines: seq<string>, r: string,
                        s: nat, e: nat, before: string, indent: string, after: string)
    requires endMarker != "" && '\n' !in endMarker
    requires IsReplacement(text, startMarker, endMarker, lines, r, s, e, before, indent, after)
    ensures EndsInNewline(r) <==> after != "" && EndsInNewline(text)
  {
    BlockIsJoined(indent, startMarker, endMarker, lines);
    var block := Block(indent, startMarker, endMarker, lines);
    assert block[|block| - 1] == endMarker[|endMarker| - 1];
    assert endMarker[|endMarker| - 1] in endMarker;
    assert after != "" ==> text[|text| - 1] == after[|after| - 1];
  }

  // ---------- cutting a rebuilt document ----------

  lemma OccursAtChars(text: string, pattern: string, j: nat)
    ensures OccursAt(text, pattern, j) ==> forall m :: 0 <= m < |pattern| ==> text[j + m] == pattern[m]
  {
  }

  /** An end marker without newline does not reach over the end of a line. */
  lemma SkipLine(text: string, pre: string, line: string, rest: string, pattern: string, j: nat)
    requires text == pre + line + "\n" + rest && '\n' !in pattern && pattern != ""
    requires |pre| <= j <= |pre| + |line|
    ensures OccursAt(text, pattern, j) <==> OccursAt(line, pattern, j - |pre|)
  {
    var k := |pre| + |line|;
    assert text[k] == '\n';
    if j + |pattern| <= k {
      assert text[j..j + |pattern|] == line[j - |pre|..j - |pre| + |pattern|];
    } else {
      var c := pattern[k - j];
      assert c in pattern;
      OccursAtChars(text, pattern, j);
    }
  }

  lemma LineOccurs(text: string, pre: string, line: string, pattern: string)
    requires pattern != ""
    requires forall j :: |pre| <= j <= |pre| + |line| ==>
               (OccursAt(text, pattern, j) <==> OccursAt(line, pattern, j - |pre|))
    ensures (exists j :: |pre| <= j <= |pre| + |line| && OccursAt(text, pattern, j)) <==> Occurs(pattern, line)
  {
    if Occurs(pattern, line) {
      var i :| 0 <= i <= |line| && OccursAt(line, pattern, i);
      assert OccursAt(text, pattern, |pre| + i);
    }
  }

  lemma {:induction false} SkipBody(text: string, pre: string, indent: string, lines: seq<string>, rest: string,
                                    pattern: string)
    requires text == pre + Body(indent, lines) + rest && '\n' !in pattern && pattern != ""
    ensures (exists j :: |pre| <= j < |pre| + |Body(indent, lines)| && OccursAt(text, pattern, j))
            <==> exists l :: l in lines && Occurs(pattern, indent + l)
    decreases lines
  {
    if lines == [] {
    } else {
      var line := indent + lines[0];
      var pre', tail := pre + line + "\n", Body(indent, lines[1..]);
      assert text == pre' + tail + rest;
      assert text == pre + line + "\n" + (tail + rest);
      SkipBody(text, pre', indent, lines[1..], rest, pattern);
      forall j | |pre| <= j <= |pre| + |line|
        ensures OccursAt(text, pattern, j) <==> OccursAt(line, pattern, j - |pre|)
      {
        SkipLine(text, pre, line, tail + rest, pattern, j);
      }
      LineOccurs(text, pre, line, pattern);
      assert lines == [lines[0]] + lines[1..];
      assert |Body(indent, lines)| == |line| + 1 + |tail|;
    }
  }

  lemma SamePrefix(text: string, other: string, n: nat, pattern: string, j: nat)
    requires n <= |text| && n <= |other| && text[..n] == other[..n] && j + |pattern| <= n
    ensures OccursAt(text, pattern, j) <==> OccursAt(other, pattern, j)
  {
    assert text[j..j + |pattern|] == text[..n][j..j + |pattern|];
    assert other[j..j + |pattern|] == other[..n][j..j + |pattern|];
  }

  /** A document rebuilt from its frame is cut at the same start marker and line. */
  lemma SameStart(text: string, startMarker: string, endMarker: string, cut: Cut, rebuilt: string)
    requires startMarker != "" && startMarker[0] != '\n' && FindCut(text, startMarker, endMarker) == Some(cut)
    requires text[..cut.marker + |startMarker|] <= rebuilt
    ensures IndexOf(rebuilt, startMarker, 0) == cut.marker && LastNewline(rebuilt, cut.marker) == cut.lineStart - 1
  {
    var i, n := cut.marker, cut.marker + |startMarker|;
    CutMeaning(text, startMarker, endMarker, cut);
    assert rebuilt[..n] == text[..n];
    forall j | 0 <= j <= i ensures OccursAt(rebuilt, startMarker, j) <==> OccursAt(text, startMarker, j) {
      SamePrefix(text, rebuilt, n, startMarker, j);
    }
    IndexOfIs(rebuilt, startMarker, 0, i);
    assert forall k :: 0 <= k < n ==> rebuilt[k] == rebuilt[..n][k] == text[k];
  }

  /** The end marker occurs in the rebuilt block before its last line. */
  ghost predicate EndsEarly(f: Frame, startMarker: string, endMarker: string, lines: seq<string>) {
    Occurs(endMarker, startMarker) || exists l :: l in lines && Occurs(endMarker, f.indent + l)
  }

  /** Where the last line of the rebuilt block starts. */
  function LastLine(f: Frame, startMarker: string, lines: seq<string>): nat {
    |f.before| + |f.indent| + |startMarker| + 1 + |Body(f.indent, lines)|
  }

  lemma EarlyOccurrence(f: Frame, startMarker: string, endMarker: string, lines: seq<string>)
    requires '\n' !in endMarker && endMarker != ""
    ensures var r, i := Rebuilt(f, startMarker, endMarker, lines), |f.before| + |f.indent|;
            (exists j :: i <= j < LastLine(f, startMarker, lines) && OccursAt(r, endMarker, j))
            <==> EndsEarly(f, startMarker, endMarker, lines)
  {
    var r, i := Rebuilt(f, startMarker, endMarker, lines), |f.before| + |f.indent|;
    var tail := f.indent + endMarker + if f.after == "" then "" else "\n" + f.after;
    var body := Body(f.indent, lines);
    var pre := f.before + f.indent + startMarker + "\n";
    assert r == pre + body + tail;
    assert r == (f.before + f.indent) + startMarker + "\n" + (body + tail);
    forall j | i <= j <= i + |startMarker|
      ensures OccursAt(r, endMarker, j) <==> OccursAt(startMarker, endMarker, j - i)
    {
      SkipLine(r, f.before + f.indent, startMarker, body + tail, endMarker, j);
    }
    LineOccurs(r, f.before + f.indent, startMarker, endMarker);
    SkipBody(r, pre, f.indent, lines, tail, endMarker);
  }

  lemma {:induction false} BodyEndsLine(indent: string, lines: seq<string>)
    ensures Body(indent, lines) != "" ==> Body(indent, lines)[|Body(indent, lines)| - 1] == '\n'
    decreases lines
  {
    if lines == [] {
    } else {
      BodyEndsLine(indent, lines[1..]);
    }
  }

  lemma RebuiltEnds(f: Frame, startMarker: string, endMarker: string, lines: seq<string>)
    requires endMarker != "" && '\n' !in endMarker && '\n' !in f.indent
    ensures var r, p := Rebuilt(f, startMarker, endMarker, lines), LastLine(f, startMarker, lines);
            var q := p + |f.indent| + |endMarker|;
            && 1 <= p <= q <= |r| && r[p - 1] == '\n' && OccursAt(r, endMarker, p + |f.indent|)
            && (forall k :: p <= k < q ==> r[k] != '\n')
            && (if f.after == "" then |r| == q else q < |r| && r[q] == '\n' && r[q + 1..] == f.after)
  {
    var tail := if f.after == "" then "" else "\n" + f.after;
    var body := Body(f.indent, lines);
    var r, p := Rebuilt(f, startMarker, endMarker, lines), LastLine(f, startMarker, lines);
    var head := f.before + f.indent + startMarker + "\n" + body;
    BodyEndsLine(f.indent, lines);
    assert r == head + f.indent + endMarker + tail;
    assert r[p + |f.indent|..p + |f.indent| + |endMarker|] == endMarker;
    forall k | p <= k < p + |f.indent| + |endMarker| ensures r[k] != '\n' {
      if k < p + |f.indent| {
        assert r[k] == f.indent[k - p];
      } else {
        assert r[k] == endMarker[k - p - |f.indent|];
      }
    }
    assert r[p - 1] == head[p - 1];
  }

  /** The end of the block found when the rebuilt document is cut again. */
  lemma EndFound(f: Frame, startMarker: string, endMarker: string, lines: seq<string>)
    requires endMarker != "" && '\n' !in endMarker && '\n' !in f.indent
    ensures var r, i, p := Rebuilt(f, startMarker, endMarker, lines), |f.before| + |f.indent|,
            LastLine(f, startMarker, lines);
            i <= p <= |r| && i <= |r|
            && var e := IndexOf(r, endMarker, i);
               if EndsEarly(f, startMarker, endMarker, lines) then i <= e < p else p <= e <= p + |f.indent|
  {
    RebuiltEnds(f, startMarker, endMarker, lines);
    EarlyOccurrence(f, startMarker, endMarker, lines);
  }

  lemma RestAfterEnd(f: Frame, startMarker: string, endMarker: string, lines: seq<string>, e: nat)
    requires endMarker != "" && '\n' !in endMarker && '\n' !in f.indent
    requires var p := LastLine(f, startMarker, lines);
             e <= |Rebuilt(f, startMarker, endMarker, lines)|
             && if EndsEarly(f, startMarker, endMarker, lines) then e < p else p <= e <= p + |f.indent|
    ensures var r := Rebuilt(f, startMarker, endMarker, lines);
            var n := IndexOf(r, "\n", e);
            var rest := if n == -1 then "" else r[n + 1..];
            if EndsEarly(f, startMarker, endMarker, lines) then |rest| > |f.after| else rest == f.after
  {
    var r, p := Rebuilt(f, startMarker, endMarker, lines), LastLine(f, startMarker, lines);
    RebuiltEnds(f, startMarker, endMarker, lines);
    NewlineAt(r, e);
  }

  lemma FrameIs(r: string, startMarker: string, endMarker: string, lineStart: nat, marker: nat, e: nat, f: Frame)
    requires IndexOf(r, startMarker, 0) == marker && LastNewline(r, marker) == lineStart - 1
    requires lineStart <= marker <= |r| && IndexOf(r, endMarker, marker) == e
    requires r[..lineStart] == f.before && r[lineStart..marker] == f.indent
    ensures e <= |r|
    ensures var again, n := FindCut(r, startMarker, endMarker), IndexOf(r, "\n", e);
            again.Some? && FrameOf(r, again.value) == f.(after := if n == -1 then "" else r[n + 1..])
  {
  }

  lemma RestOfRebuilt(f: Frame, startMarker: string, endMarker: string, lines: seq<string>, r: string, e: int)
    requires endMarker != "" && '\n' !in endMarker && '\n' !in f.indent
    requires r == Rebuilt(f, startMarker, endMarker, lines)
    requires |f.before| + |f.indent| <= |r| ==> e == IndexOf(r, endMarker, |f.before| + |f.indent|)
    ensures |f.before| + |f.indent| <= |r| && 0 <= e <= |r|
    ensures var n := IndexOf(r, "\n", e);
            var rest := if n == -1 then "" else r[n + 1..];
            if EndsEarly(f, startMarker, endMarker, lines) then |rest| > |f.after| else rest == f.after
  {
    EndFound(f, startMarker, endMarker, lines);
    RestAfterEnd(f, startMarker, endMarker, lines, e);
  }

  lemma RecutAfter(f: Frame, startMarker: string, endMarker: string, lines: seq<string>, r: string, marker: nat,
                   lineStart: nat)
    requires endMarker != "" && '\n' !in endMarker && '\n' !in f.indent
    requires r == Rebuilt(f, startMarker, endMarker, lines) && marker == |f.before| + |f.indent|
    requires IndexOf(r, startMarker, 0) == marker && LastNewline(r, marker) == lineStart - 1
    requires lineStart <= marker <= |r| && r[..lineStart] == f.before && r[lineStart..marker] == f.indent
    ensures var again := FindCut(r, startMarker, endMarker);
            again.Some? && var g := FrameOf(r, again.value);
            && g.before == f.before && g.indent == f.indent
            && if EndsEarly(f, startMarker, endMarker, lines) then |g.after| > |f.after| else g.after == f.after
  {
    var e := IndexOf(r, endMarker, marker);
    RestOfRebuilt(f, startMarker, endMarker, lines, r, e);
    FrameIs(r, startMarker, endMarker, lineStart, marker, e, f);
  }

  lemma IndentIsOnOneLine(text: string, startMarker: string, endMarker: string, cut: Cut)
    requires startMarker != "" && startMarker[0] != '\n' && FindCut(text, startMarker, endMarker) == Some(cut)
    ensures '\n' !in FrameOf(text, cut).indent
    ensures |FrameOf(text, cut).before| + |FrameOf(text, cut).indent| == cut.marker
  {
  }

  lemma Parts(r: string, a: string, b: string, c: string, d: string)
    requires r == a + b + c + d
    ensures a + b + c <= r && r[..|a|] == a && r[|a|..|a| + |b|] == b
  {
  }

  lemma RebuiltParts(f: Frame, startMarker: string, endMarker: string, lines: seq<string>)
    ensures exists rest :: Rebuilt(f, startMarker, endMarker, lines) == f.before + f.indent + startMarker + rest
  {
    var rest := "\n" + Body(f.indent, lines) + f.indent + endMarker;
    assert f.before + Block(f.indent, startMarker, endMarker, lines) == f.before + f.indent + startMarker + rest;
    if f.after != "" {
      var more := rest + "\n" + f.after;
      assert Rebuilt(f, startMarker, endMarker, lines) == f.before + f.indent + startMarker + more;
    }
  }

  lemma Pieces(text: string, from: nat, to: nat, pattern: string)
    requires from <= to && OccursAt(text, pattern, to)
    ensures text[..to + |pattern|] == text[..from] + text[from..to] + pattern
  {
  }

  lemma RebuiltStarts(text: string, startMarker: string, endMarker: string, cut: Cut, lines: seq<string>, f: Frame,
                      r: string)
    requires startMarker != "" && startMarker[0] != '\n' && FindCut(text, startMarker, endMarker) == Some(cut)
    requires f == FrameOf(text, cut) && r == Rebuilt(f, startMarker, endMarker, lines)
    ensures cut.lineStart <= cut.marker && cut.marker + |startMarker| <= |text|
    ensures text[..cut.marker + |startMarker|] <= r
    ensures r[..cut.lineStart] == f.before && cut.marker <= |r| && r[cut.lineStart..cut.marker] == f.indent
  {
    CutMeaning(text, startMarker, endMarker, cut);
    RebuiltParts(f, startMarker, endMarker, lines);
    var rest :| r == f.before + f.indent + startMarker + rest;
    Parts(r, f.before, f.indent, startMarker, rest);
    Pieces(text, cut.lineStart, cut.marker, startMarker);
  }

  /** What is left after cutting the rebuilt document again: the same as before, unless the
      end marker occurs too early, and then strictly more. */
  lemma Recut(text: string, startMarker: string, endMarker: string, cut: Cut, lines: seq<string>, f: Frame, r: string)
    requires startMarker != "" && startMarker[0] != '\n' && endMarker != "" && '\n' !in endMarker
    requires FindCut(text, startMarker, endMarker) == Some(cut)
    requires f == FrameOf(text, cut) && r == Rebuilt(f, startMarker, endMarker, lines)
    ensures var again := FindCut(r, startMarker, endMarker);
            again.Some? && var g := FrameOf(r, again.value);
            && g.before == f.before && g.indent == f.indent
            && if EndsEarly(f, startMarker, endMarker, lines) then |g.after| > |f.after| else g.after == f.after
  {
    RebuiltStarts(text, startMarker, endMarker, cut, lines, f, r);
    SameStart(text, startMarker, endMarker, cut, r);
    IndentIsOnOneLine(text, startMarker, endMarker, cut);
    RecutAfter(f, startMarker, endMarker, lines, r, cut.marker, cut.lineStart);
  }

  /** The last write wins, and replacing is idempotent, exactly when the end marker occurs
      neither in the start marker nor in any indented line that was written. */
  lemma LastWriteWinsIff(text: string, startMarker: string, endMarker: string, lines: seq<string>, lines': seq<string>)
    requires startMarker != "" && startMarker[0] != '\n' && endMarker != "" && '\n' !in endMarker
    requires ReplaceBlockLines(text, startMarker, endMarker, lines).Ok?
    ensures FindCut(text, startMarker, endMarker).Some?
    ensures ReplaceBlockLines(ReplaceBlockLines(text, startMarker, endMarker, lines).text, startMarker, endMarker,
            lines')
            == ReplaceBlockLines(text, startMarker, endMarker, lines')
            <==> var f := FrameOf(text, FindCut(text, startMarker, endMarker).value);
                 !Occurs(endMarker, startMarker) && forall l :: l in lines ==> !Occurs(endMarker, f.indent + l)
  {
    var cut := FindCut(text, startMarker, endMarker).value;
    var f := FrameOf(text, cut);
    ReplaceKeepsFrame(text, startMarker, endMarker, lines);
    ReplaceKeepsFrame(text, startMarker, endMarker, lines');
    var r := Rebuilt(f, startMarker, endMarker, lines);
    Recut(text, startMarker, endMarker, cut, lines, f, r);
    ReplaceKeepsFrame(r, startMarker, endMarker, lines');
  }

  /** An input on which the last write does not win: the first write has the end marker as one of
      its lines, so the second one replaces the block only up to there. */
  lemma LastWriteLoses()
    ensures ReplaceBlockLines("be", "b", "e", ["e"]).Ok?
    ensures ReplaceBlockLines(ReplaceBlockLines("be", "b", "e", ["e"]).text, "b", "e", [])
            != ReplaceBlockLines("be", "b", "e", [])
  {
    var cut := Cut(0, 0, 2);
    assert OccursAt("be", "b", 0) && !OccursAt("be", "e", 0) && OccursAt("be", "e", 1);
    assert !OccursAt("be", "\n", 1) && !OccursAt("be", "\n", 2);
    assert IndexOf("be", "\n", 1) == -1 by {
      NewlineAt("be", 1);
    }
    assert FindCut("be", "b", "e") == Some(cut);
    assert FrameOf("be", cut).indent == "";
    assert OccursAt("" + "e", "e", 0) && Occurs("e", "" + "e");
    assert "e" in ["e"];
    LastWriteWinsIff("be", "b", "e", ["e"], []);
  }
}
