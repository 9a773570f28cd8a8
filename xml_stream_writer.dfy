/**
 * `EnhancedXMLStreamWriter`: an `XMLStreamWriter` that wraps another one
 * and pretty-prints. Two fields, `depth` and `indentEnd`, decide together
 * with the `indent` setting where a line feed and `depth * indent` spaces
 * go. The wrapped writer is the sequence of calls made on it.
 */
module XmlWriter {
  import opened Wrappers
  import opened JavaStrings

  /**
   * The writing methods of `XMLStreamWriter`, used both for the calls made
   * on this writer and for the calls it makes on the writer it wraps.
   */
  datatype Call =
    | StartElement(localName: string)
    | StartElementNs(namespaceURI: string, localName: string)
    | StartElementPrefixed(prefix: string, localName: string, namespaceURI: string)
    | EmptyElement(localName: string)
    | EmptyElementNs(namespaceURI: string, localName: string)
    | EmptyElementPrefixed(prefix: string, localName: string, namespaceURI: string)
    | EndElement
    | Characters(text: string)
    | CharactersRange(chars: seq<char>, start: int, len: int)
    | Comment(data: string)
    | ProcessingInstruction(target: string)
    | ProcessingInstructionData(target: string, data: string)
    | Dtd(dtd: string)
    | Attribute(localName: string, value: string)
    | AttributeNs(namespaceURI: string, localName: string, value: string)
    | AttributePrefixed(prefix: string, namespaceURI: string, localName: string, value: string)
    | Namespace(prefix: string, namespaceURI: string)
    | DefaultNamespace(namespaceURI: string)
    | CData(data: string)
    | EntityRef(name: string)
    | StartDocument
    | StartDocumentVersion(version: string)
    | StartDocumentEncoding(encoding: string, version: string)
    | EndDocument
    | SetPrefix(prefix: string, uri: string)
    | SetDefaultNamespace(uri: string)
    | Flush
    | Close

  /** The calls that open an element. */
  predicate IsStart(c: Call) {
    c.StartElement? || c.StartElementNs? || c.StartElementPrefixed?
  }

  /** The calls that start a new line without changing the depth. */
  predicate IsIndentedLeaf(c: Call) {
    || c.EmptyElement? || c.EmptyElementNs? || c.EmptyElementPrefixed?
    || c.Comment? || c.ProcessingInstruction? || c.ProcessingInstructionData? || c.Dtd?
  }

  /** The calls forwarded as they are, touching neither `depth` nor `indentEnd`. */
  predicate IsPassThrough(c: Call) {
    !IsStart(c) && !IsIndentedLeaf(c) && !c.EndElement? && !c.Characters? && !c.AttributeNs?
  }

  /** The settings of the constructor: blank values written or skipped, and the indentation. */
  datatype Config = Config(writeBlanks: bool, indent: int)

  /** The mutable part: the two fields and what has been written on the wrapped writer. */
  datatype WriterState = WriterState(depth: int, indentEnd: bool, out: seq<Call>)

  /** What `indent()` writes: nothing below 0, a line feed, and `depth * indent` spaces above 0. */
  function IndentCalls(indent: int, depth: int): seq<Call> {
    if indent <= -1 then []
    else if indent == 0 then [Characters("\n")]
    else [Characters("\n"), Characters(Repeat(' ', depth * indent))]
  }

  /** `indent()`: sets `indentEnd` and writes the indentation for the current depth. */
  function Indent(cfg: Config, st: WriterState): WriterState {
    st.(indentEnd := true, out := st.out + IndentCalls(cfg.indent, st.depth))
  }

  /** One indentation and one line for each line of a multi-line text. */
  function IndentedLines(cfg: Config, st: WriterState, lines: seq<string>): WriterState
    decreases |lines|
  {
    if lines == [] then st
    else IndentedLines(cfg, Indent(cfg, st).(out := Indent(cfg, st).out + [Characters(lines[0])]), lines[1..])
  }

  /** `writeCharacters(String)`. */
  function WriteText(cfg: Config, st: WriterState, text: string): WriterState {
    if cfg.indent < 0 then st.(out := st.out + [Characters(text)])
    else if IsBlank(text) then st.(indentEnd := false)
    else
      var lines := SplitJava(text, '\n');
      if |lines| == 1 then st.(indentEnd := false, out := st.out + [Characters(lines[0])])
      else IndentedLines(cfg, st, lines)
  }

  /** The effect of one call on the enhanced writer. */
  function Apply(cfg: Config, st: WriterState, c: Call): WriterState {
    if IsStart(c) then
      var s := Indent(cfg, st);
      s.(depth := s.depth + 1, out := s.out + [c])
    else if IsIndentedLeaf(c) then
      var s := Indent(cfg, st);
      s.(out := s.out + [c])
    else if c.EndElement? then
      var s := st.(depth := st.depth - 1);
      var s' := if s.indentEnd then Indent(cfg, s) else s;
      s'.(indentEnd := true, out := s'.out + [EndElement])
    else if c.Characters? then WriteText(cfg, st, c.text)
    else if c.AttributeNs? then
      // the three-argument form forwards its namespace URI as the local name
      st.(out := st.out + [Attribute(c.namespaceURI, c.value)])
    else st.(out := st.out + [c])
  }

  /** A sequence of calls, one after the other. */
  function Run(cfg: Config, st: WriterState, calls: seq<Call>): WriterState
    decreases |calls|
  {
    if calls == [] then st else Run(cfg, Apply(cfg, st, calls[0]), calls[1..])
  }

  /** How a call moves the depth: up for a start, down for an end. */
  function DepthChange(c: Call): int {
    if IsStart(c) then 1 else if c.EndElement? then -1 else 0
  }

  function NetDepth(calls: seq<Call>): int
    decreases |calls|
  {
    if calls == [] then 0 else DepthChange(calls[0]) + NetDepth(calls[1..])
  }

  /** The characters a sequence of calls writes, in order. */
  function TextOf(calls: seq<Call>): string
    decreases |calls|
  {
    if calls == [] then []
    else (if calls[0].Characters? then calls[0].text else []) + TextOf(calls[1..])
  }

  // ---------------------------------------------------------------------
  // Properties of one call
  // ---------------------------------------------------------------------

  /**
   * The indentation is a line feed followed by `depth * indent` spaces
   * (none for a depth of 0 or less), only a line feed for `indent == 0`,
   * and nothing for a negative `indent`.
   */
  lemma IndentText(indent: int, depth: int)
    ensures indent < 0 ==> TextOf(IndentCalls(indent, depth)) == []
    ensures indent >= 0 ==> var t := TextOf(IndentCalls(indent, depth));
              && |t| == 1 + (if indent > 0 && depth > 0 then depth * indent else 0)
              && t[0] == '\n'
              && forall k :: 1 <= k < |t| ==> t[k] == ' '
  {
    if indent > 0 {
      var sp := Repeat(' ', depth * indent);
      assert TextOf([Characters(sp)]) == sp;
      assert TextOf(IndentCalls(indent, depth)) == "\n" + sp;
      if depth <= 0 {
        assert depth * indent <= 0;
      } else {
        assert depth * indent > 0;
      }
    }
  }

  /** `indent()` always leaves `indentEnd` set and never changes the depth. */
  lemma IndentSetsIndentEnd(cfg: Config, st: WriterState)
    ensures Indent(cfg, st).indentEnd && Indent(cfg, st).depth == st.depth
    ensures Indent(cfg, st).out[..|st.out|] == st.out
  {
  }

  /** A call moves the depth by exactly its depth change. */
  lemma ApplyDepth(cfg: Config, st: WriterState, c: Call)
    ensures Apply(cfg, st, c).depth == st.depth + DepthChange(c)
  {
    if c.Characters? && cfg.indent >= 0 && !IsBlank(c.text) && |SplitJava(c.text, '\n')| != 1 {
      IndentedLinesDepth(cfg, st, SplitJava(c.text, '\n'));
    }
  }

  lemma {:induction false} IndentedLinesDepth(cfg: Config, st: WriterState, lines: seq<string>)
    ensures IndentedLines(cfg, st, lines).depth == st.depth
    ensures lines != [] ==> IndentedLines(cfg, st, lines).indentEnd
    ensures lines == [] ==> IndentedLines(cfg, st, lines) == st
    decreases |lines|
  {
    if lines != [] {
      IndentedLinesDepth(cfg, Indent(cfg, st).(out := Indent(cfg, st).out + [Characters(lines[0])]), lines[1..]);
    }
  }

  /**
   * The end tag goes on a new line exactly when `indentEnd` was set, one
   * level further out than the content, and `indentEnd` is set afterwards.
   */
  lemma EndElementIndents(cfg: Config, st: WriterState)
    ensures var r := Apply(cfg, st, EndElement);
            && r.indentEnd && r.depth == st.depth - 1
            && r.out == st.out + (if st.indentEnd then IndentCalls(cfg.indent, st.depth - 1) else []) + [EndElement]
  {
  }

  /** The forwarding calls write themselves and leave both fields alone. */
  lemma PassThroughForwards(cfg: Config, st: WriterState, c: Call)
    requires IsPassThrough(c)
    ensures Apply(cfg, st, c) == st.(out := st.out + [c])
  {
  }

  /** The three-argument `writeAttribute` drops its local name and writes the URI as the name. */
  lemma AttributeNsDropsLocalName(cfg: Config, st: WriterState, ns: string, name: string, value: string)
    ensures Apply(cfg, st, AttributeNs(ns, name, value)) == st.(out := st.out + [Attribute(ns, value)])
  {
  }

  /** Without indentation a text goes through unchanged, even a blank one. */
  lemma TextWithoutIndent(cfg: Config, st: WriterState, text: string)
    requires cfg.indent < 0
    ensures Apply(cfg, st, Characters(text)) == st.(out := st.out + [Characters(text)])
  {
  }

  /** With indentation a blank text writes nothing and clears `indentEnd`. */
  lemma BlankTextWithIndent(cfg: Config, st: WriterState, text: string)
    requires cfg.indent >= 0 && IsBlank(text)
    ensures Apply(cfg, st, Characters(text)) == st.(indentEnd := false)
  {
  }

  /** A single-line text is written on the spot and clears `indentEnd`. */
  lemma OneLineText(cfg: Config, st: WriterState, text: string)
    requires cfg.indent >= 0 && !IsBlank(text) && '\n' !in text
    ensures Apply(cfg, st, Characters(text)) == st.(indentEnd := false, out := st.out + [Characters(text)])
  {
  }

  /** Each line of a multi-line text starts on a new line at the current depth. */
  lemma {:induction false} IndentedLinesOut(cfg: Config, st: WriterState, lines: seq<string>)
    ensures IndentedLines(cfg, st, lines).out == st.out + LinesOut(cfg.indent, st.depth, lines)
    decreases |lines|
  {
    if lines != [] {
      var s := Indent(cfg, st).(out := Indent(cfg, st).out + [Characters(lines[0])]);
      IndentedLinesOut(cfg, s, lines[1..]);
    }
  }

  /** The indentation before each line, then the line. */
  function LinesOut(indent: int, depth: int, lines: seq<string>): seq<Call>
    decreases |lines|
  {
    if lines == [] then []
    else IndentCalls(indent, depth) + [Characters(lines[0])] + LinesOut(indent, depth, lines[1..])
  }

  // ---------------------------------------------------------------------
  // Properties of call sequences
  // ---------------------------------------------------------------------

  /** The depth after a sequence of calls is the depth before plus its net depth change. */
  lemma {:induction false} RunDepth(cfg: Config, st: WriterState, calls: seq<Call>)
    ensures Run(cfg, st, calls).depth == st.depth + NetDepth(calls)
    decreases |calls|
  {
    if calls != [] {
      ApplyDepth(cfg, st, calls[0]);
      RunDepth(cfg, Apply(cfg, st, calls[0]), calls[1..]);
    }
  }

  /** Balanced starts and ends restore the depth. */
  lemma BalancedRestoresDepth(cfg: Config, st: WriterState, calls: seq<Call>)
    requires NetDepth(calls) == 0
    ensures Run(cfg, st, calls).depth == st.depth
  {
    RunDepth(cfg, st, calls);
  }

  lemma {:induction false} RunAppend(cfg: Config, st: WriterState, a: seq<Call>, b: seq<Call>)
    ensures Run(cfg, st, a + b) == Run(cfg, Run(cfg, st, a), b)
    decreases |a|
  {
    if a != [] {
      assert (a + b)[0] == a[0] && (a + b)[1..] == a[1..] + b;
      RunAppend(cfg, Apply(cfg, st, a[0]), a[1..], b);
    } else {
      assert a + b == b;
    }
  }

  lemma RunOne(cfg: Config, st: WriterState, c: Call)
    ensures Run(cfg, st, [c]) == Apply(cfg, st, c)
  {
    assert [c][1..] == [];
  }

  lemma RunThree(cfg: Config, st: WriterState, a: Call, b: Call, c: Call)
    ensures Run(cfg, st, [a, b, c]) == Apply(cfg, Apply(cfg, Apply(cfg, st, a), b), c)
  {
    assert [a, b, c][1..] == [b, c] && [b, c][1..] == [c];
    RunOne(cfg, Apply(cfg, Apply(cfg, st, a), b), c);
  }

  /** The calls only ever append to the wrapped writer. */
  lemma {:induction false} RunAppends(cfg: Config, st: WriterState, calls: seq<Call>)
    ensures |Run(cfg, st, calls).out| >= |st.out| && Run(cfg, st, calls).out[..|st.out|] == st.out
    decreases |calls|
  {
    if calls != [] {
      ApplyAppends(cfg, st, calls[0]);
      var s := Apply(cfg, st, calls[0]);
      RunAppends(cfg, s, calls[1..]);
      assert Run(cfg, st, calls).out[..|s.out|] == s.out;
      assert s.out[..|st.out|] == st.out;
    }
  }

  lemma ApplyAppends(cfg: Config, st: WriterState, c: Call)
    ensures |Apply(cfg, st, c).out| >= |st.out| && Apply(cfg, st, c).out[..|st.out|] == st.out
  {
    if c.Characters? && cfg.indent >= 0 && !IsBlank(c.text) && |SplitJava(c.text, '\n')| != 1 {
      IndentedLinesOut(cfg, st, SplitJava(c.text, '\n'));
    }
  }

  // ---------------------------------------------------------------------
  // Values of elements and attributes
  // ---------------------------------------------------------------------

  /** `writeAttributeObject`: a non-blank value, else `""` when blanks are written, else nothing. */
  function AttributeObject(cfg: Config, st: WriterState, localName: string, value: Option<string>): WriterState {
    if !IsBlankOrNull(value) then Apply(cfg, st, Attribute(localName, value.value))
    else if cfg.writeBlanks then Apply(cfg, st, Attribute(localName, ""))
    else st
  }

  /** The calls `writeElementObject` makes on the enhanced writer itself. */
  function ElementObjectCalls(cfg: Config, localName: string, value: Option<string>): seq<Call> {
    if !IsBlankOrNull(value) then [StartElement(localName), Characters(value.value), EndElement]
    else if cfg.writeBlanks then [EmptyElement(localName)]
    else []
  }

  /** `writeElementObject`. */
  function ElementObject(cfg: Config, st: WriterState, localName: string, value: Option<string>): WriterState {
    Run(cfg, st, ElementObjectCalls(cfg, localName, value))
  }

  /** An attribute is written with its value, or with `""` only when blanks are written. */
  lemma AttributeObjectOut(cfg: Config, st: WriterState, localName: string, value: Option<string>)
    ensures var r := AttributeObject(cfg, st, localName, value);
            && r.depth == st.depth && r.indentEnd == st.indentEnd
            && (!IsBlankOrNull(value) ==> r.out == st.out + [Attribute(localName, value.value)])
            && (IsBlankOrNull(value) && cfg.writeBlanks ==> r.out == st.out + [Attribute(localName, "")])
            && (IsBlankOrNull(value) && !cfg.writeBlanks ==> r == st)
  {
  }

  /** An element value never changes the depth. */
  lemma ElementObjectDepth(cfg: Config, st: WriterState, localName: string, value: Option<string>)
    ensures ElementObject(cfg, st, localName, value).depth == st.depth
  {
    var calls := ElementObjectCalls(cfg, localName, value);
    if !IsBlankOrNull(value) {
      assert calls[1..] == [Characters(value.value), EndElement] && calls[1..][1..] == [EndElement];
      assert NetDepth([EndElement]) == -1 by {
        assert [EndElement][1..] == [];
      }
    } else if cfg.writeBlanks {
      assert calls[1..] == [];
    }
    RunDepth(cfg, st, calls);
  }

  /**
   * A single-line value makes a compact element: the start tag on a new
   * line, then the text, then the end tag right after it.
   */
  lemma ElementObjectOneLine(cfg: Config, st: WriterState, localName: string, value: string)
    requires cfg.indent >= 0 && !IsBlank(value) && '\n' !in value
    ensures var r := ElementObject(cfg, st, localName, Some(value));
            && r.out == st.out + IndentCalls(cfg.indent, st.depth)
                 + [StartElement(localName), Characters(value), EndElement]
            && r.depth == st.depth && r.indentEnd
  {
    var s1 := Apply(cfg, st, StartElement(localName));
    var s2 := Apply(cfg, s1, Characters(value));
    OneLineText(cfg, s1, value);
    RunThree(cfg, st, StartElement(localName), Characters(value), EndElement);
  }

  /** A blank value writes one empty element when blanks are written, and nothing otherwise. */
  lemma ElementObjectBlank(cfg: Config, st: WriterState, localName: string, value: Option<string>)
    requires IsBlankOrNull(value)
    ensures cfg.writeBlanks ==> ElementObject(cfg, st, localName, value) == Apply(cfg, st, EmptyElement(localName))
    ensures !cfg.writeBlanks ==> ElementObject(cfg, st, localName, value) == st
  {
    RunOne(cfg, st, EmptyElement(localName));
  }

  // ---------------------------------------------------------------------
  // The writer object
  // ---------------------------------------------------------------------

  class EnhancedXmlStreamWriter {
    const writeBlanks: bool
    /** -1 or less: no indentation; 0: line feeds only; 1 or more: that many spaces per level. */
    const indent: int
    var depth: int
    var indentEnd: bool
    /** The calls made on the wrapped writer, oldest first. */
    var out: seq<Call>

    constructor (writeBlanks: bool, indent: int)
      ensures this.writeBlanks == writeBlanks && this.indent == indent
      ensures depth == 0 && !indentEnd && out == []
    {
      this.writeBlanks := writeBlanks;
      this.indent := indent;
      depth := 0;
      indentEnd := false;
      out := [];
    }

    function Settings(): Config {
      Config(writeBlanks, indent)
    }

    function State(): WriterState
      reads this
    {
      WriterState(depth, indentEnd, out)
    }

    method DoIndent()
      modifies this
      ensures State() == Indent(Settings(), old(State()))
    {
      indentEnd := true;
      if indent > -1 {
        out := out + [Characters("\n")];
        if indent > 0 {
          out := out + [Characters(Repeat(' ', depth * indent))];
        }
      }
    }

    /** `writeStartElement`, in its three forms. */
    method WriteStartElement(c: Call)
      requires IsStart(c)
      modifies this
      ensures State() == Apply(Settings(), old(State()), c)
    {
      DoIndent();
      depth := depth + 1;
      out := out + [c];
    }

    /** `writeEmptyElement` in its three forms, `writeComment`, `writeProcessingInstruction` and `writeDTD`. */
    method WriteIndentedLeaf(c: Call)
      requires IsIndentedLeaf(c)
      modifies this
      ensures State() == Apply(Settings(), old(State()), c)
    {
      DoIndent();
      out := out + [c];
    }

    method WriteEndElement()
      modifies this
      ensures State() == Apply(Settings(), old(State()), EndElement)
    {
      depth := depth - 1;
      if indentEnd {
        DoIndent();
      }
      indentEnd := true;
      out := out + [EndElement];
    }

    /** `writeCharacters(String)`: the line loop runs only for a text of several lines. */
    method WriteCharacters(text: string)
      modifies this
      ensures State() == Apply(Settings(), old(State()), Characters(text))
    {
      if indent < 0 {
        out := out + [Characters(text)];
        return;
      }
      if !IsBlank(text) {
        var lines := SplitJava(text, '\n');
        if |lines| == 1 {
          out := out + [Characters(lines[0])];
          indentEnd := false;
        } else {
          for i := 0 to |lines|
            invariant IndentedLines(Settings(), State(), lines[i..]) == IndentedLines(Settings(), old(State()), lines)
          {
            assert lines[i..][1..] == lines[i + 1..];
            DoIndent();
            out := out + [Characters(lines[i])];
          }
        }
      } else {
        indentEnd := false;
      }
    }

    /** The three-argument `writeAttribute`. */
    method WriteAttributeNs(namespaceURI: string, localName: string, value: string)
      modifies this
      ensures State() == Apply(Settings(), old(State()), AttributeNs(namespaceURI, localName, value))
    {
      out := out + [Attribute(namespaceURI, value)];
    }

    /** The methods that only forward to the wrapped writer. */
    method Forward(c: Call)
      requires IsPassThrough(c)
      modifies this
      ensures State() == Apply(Settings(), old(State()), c)
    {
      out := out + [c];
    }

    /** `writeAttributeString` and the typed attribute methods after `toString`. */
    method WriteAttributeObject(localName: string, value: Option<string>)
      modifies this
      ensures State() == AttributeObject(Settings(), old(State()), localName, value)
    {
      if !IsBlankOrNull(value) {
        Forward(Attribute(localName, value.value));
      } else if writeBlanks {
        Forward(Attribute(localName, ""));
      }
    }

    /** `writeElementString` and the typed element methods after `toString`. */
    method WriteElementObject(localName: string, value: Option<string>)
      modifies this
      ensures State() == ElementObject(Settings(), old(State()), localName, value)
    {
      ghost var st := State();
      if !IsBlankOrNull(value) {
        WriteStartElement(StartElement(localName));
        WriteCharacters(value.value);
        WriteEndElement();
        RunThree(Settings(), st, StartElement(localName), Characters(value.value), EndElement);
      } else if writeBlanks {
        WriteIndentedLeaf(EmptyElement(localName));
        RunOne(Settings(), st, EmptyElement(localName));
      }
    }
  }
}
