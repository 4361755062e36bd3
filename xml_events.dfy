/** The XML stream abstraction shared by export and import: the StAX writer
    calls and reader events become a sequence of events, and the text a
    writer produces is their concatenation. Names and texts are assumed to
    hold no markup characters, so nothing is escaped. */
module XmlEvents {

  datatype XmlEvent =
    | Start(tag: string)   // writeStartElement / a START_ELEMENT event
    | Chars(text: string)  // writeCharacters / a CHARACTERS event
    | End(tag: string)     // writeEndElement / an END_ELEMENT event
    | Other                // any other event a reader reports (document start, comments, ...)
    | Malformed            // the point where the reader throws XMLStreamException

  /** The text one event stands for. */
  function RenderEvent(e: XmlEvent): string
  {
    match e
    case Start(t) => "<" + t + ">"
    case Chars(s) => s
    case End(t) => "</" + t + ">"
    case _ => ""
  }

  /** The text a writer produces for a sequence of calls. */
  function Render(es: seq<XmlEvent>): string
  {
    if es == [] then "" else RenderEvent(es[0]) + Render(es[1..])
  }

  lemma {:induction false} RenderAppend(a: seq<XmlEvent>, b: seq<XmlEvent>)
    ensures Render(a + b) == Render(a) + Render(b)
  {
    if a != [] {
      assert (a + b)[1..] == a[1..] + b;
      RenderAppend(a[1..], b);
    } else {
      assert a + b == b;
    }
  }

  /** <tag>text</tag> */
  function TextElement(tag: string, text: string): (r: seq<XmlEvent>)
    ensures Render(r) == "<" + tag + ">" + text + "</" + tag + ">"
  {
    var r := [Start(tag), Chars(text), End(tag)];
    assert r[1..] == [Chars(text), End(tag)] && r[1..][1..] == [End(tag)] && r[1..][1..][1..] == [];
    assert Render(r[1..][1..]) == "</" + tag + ">";
    assert Render(r[1..]) == text + "</" + tag + ">";
    r
  }

  /** One <tag> element per item, in the order given. */
  function TextElements(tag: string, items: seq<string>): (r: seq<XmlEvent>)
    ensures |r| == 3 * |items|
  {
    if items == [] then [] else TextElement(tag, items[0]) + TextElements(tag, items[1..])
  }

  /** What a reader reports for the text of a sequence of writer calls: an
      element written with empty text reads back with no CHARACTERS event
      between its start and its end. */
  function ReadBack(es: seq<XmlEvent>): (r: seq<XmlEvent>)
    ensures |r| <= |es|
    ensures Chars("") !in es ==> r == es
    ensures forall e :: e in r ==> e in es && e != Chars("")
  {
    if es == [] then []
    else if es[0] == Chars("") then ReadBack(es[1..])
    else [es[0]] + ReadBack(es[1..])
  }

  /** Dropping the empty texts does not change the document text. */
  lemma {:induction false} ReadBackSameText(es: seq<XmlEvent>)
    ensures Render(ReadBack(es)) == Render(es)
  {
    if es != [] {
      ReadBackSameText(es[1..]);
      if es[0] != Chars("") {
        RenderAppend([es[0]], ReadBack(es[1..]));
      }
    }
  }
}
