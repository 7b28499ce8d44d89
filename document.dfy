/** generate_pdf: the flat element list built from an ordered topic -> items
    dictionary, before it is handed to the page-layout library. */
module Document {
  import opened Results
  import opened Strings

  /** One entry of a topic's list: a plain string, or an (image path, caption) tuple. */
  datatype Item = Text(text: string) | Figure(path: string, caption: string)

  /** The flowables appended to `elements`: a heading-style paragraph, a
      body paragraph, a Spacer(width, height) and an embedded image. */
  datatype Element =
    | Heading(title: string)
    | Paragraph(text: string)
    | Spacer(width: nat, height: nat)
    | Picture(path: string)

  /** A dictionary topic name -> items, in insertion order (keys distinct when built by Put). */
  type Content = seq<(string, seq<Item>)>

  /** What the elements carry for one item: its number, its text and the image placed under it. */
  datatype Entry = Entry(number: nat, body: string, image: Option<string>)

  /** What the elements carry for one topic: its heading and its entries. */
  datatype Section = Section(title: string, entries: seq<Entry>)

  /** The entry an item becomes when it is given number n: a string is stripped;
      a tuple keeps its caption as is, and its image only if that file exists. */
  function EntryOf(item: Item, n: nat, existing: set<string>): Entry {
    match item
    case Text(t) => Entry(n, Strip(t), None)
    case Figure(p, c) => Entry(n, c, if p in existing then Some(p) else None)
  }

  /** A topic's items as entries numbered from n. */
  function Entries(items: seq<Item>, n: nat, existing: set<string>): (r: seq<Entry>)
    ensures |r| == |items|
  {
    seq(|items|, i requires 0 <= i < |items| => EntryOf(items[i], n + i, existing))
  }

  /** All items of the document, topic after topic. */
  function AllItems(content: Content): seq<Item> {
    if content == [] then [] else AllItems(content[..|content| - 1]) + content[|content| - 1].1
  }

  /** All entries of the sections, section after section. */
  function AllEntries(sections: seq<Section>): seq<Entry> {
    if sections == [] then [] else AllEntries(sections[..|sections| - 1]) + sections[|sections| - 1].entries
  }

  /** The topics whose item list is not empty, in order. */
  function NonEmptyTopics(content: Content): Content {
    if content == [] then []
    else
      var last := content[|content| - 1];
      NonEmptyTopics(content[..|content| - 1]) + (if last.1 == [] then [] else [last])
  }

  /** The sections of the document when numbering starts at n: each non-empty topic,
      its items numbered on from where the previous topics stopped. */
  function Outline(content: Content, n: nat, existing: set<string>): seq<Section> {
    if content == [] then []
    else
      var earlier := content[..|content| - 1];
      var (name, items) := content[|content| - 1];
      Outline(earlier, n, existing)
        + (if items == [] then [] else [Section(name, Entries(items, n + |AllItems(earlier)|, existing))])
  }

  /** The elements appended for one entry. */
  function EntryElements(e: Entry): seq<Element> {
    [Paragraph(Digits(e.number) + ". " + e.body)]
      + (match e.image case Some(p) => [Spacer(1, 9), Picture(p)] case None => [])
      + [Spacer(1, 12)]
  }

  function LayoutEntries(entries: seq<Entry>): seq<Element> {
    if entries == [] then []
    else LayoutEntries(entries[..|entries| - 1]) + EntryElements(entries[|entries| - 1])
  }

  /** The elements of a document with these sections: a heading, then its entries. */
  function Layout(sections: seq<Section>): seq<Element> {
    if sections == [] then []
    else
      var s := sections[|sections| - 1];
      Layout(sections[..|sections| - 1]) + [Heading(s.title)] + LayoutEntries(s.entries)
  }

  /** The elements one item contributes once numbered n. */
  lemma ItemElements(item: Item, n: nat, existing: set<string>)
    ensures EntryElements(EntryOf(item, n, existing)) ==
      match item
      case Text(t) => [Paragraph(Digits(n) + ". " + Strip(t)), Spacer(1, 12)]
      case Figure(p, c) =>
        if p in existing then [Paragraph(Digits(n) + ". " + c), Spacer(1, 9), Picture(p), Spacer(1, 12)]
        else [Paragraph(Digits(n) + ". " + c), Spacer(1, 12)]
  {
  }

  lemma OutlineStep(content: Content, t: nat, n: nat, existing: set<string>)
    requires t < |content|
    ensures AllItems(content[..t + 1]) == AllItems(content[..t]) + content[t].1
    ensures Outline(content[..t + 1], n, existing) == Outline(content[..t], n, existing)
      + (if content[t].1 == [] then []
         else [Section(content[t].0, Entries(content[t].1, n + |AllItems(content[..t])|, existing))])
  {
    assert content[..t + 1][..t] == content[..t];
  }

  lemma LayoutStep(sections: seq<Section>, s: Section)
    ensures Layout(sections + [s]) == Layout(sections) + [Heading(s.title)] + LayoutEntries(s.entries)
  {
    assert (sections + [s])[..|sections|] == sections;
  }

  /** The element list and counter after one more topic, given them before it. */
  lemma TopicStep(content: Content, t: nat, existing: set<string>,
                  before: seq<Element>, first: nat, after: seq<Element>, next: nat)
    requires t < |content|
    requires before == Layout(Outline(content[..t], 1, existing)) && first == 1 + |AllItems(content[..t])|
    requires content[t].1 == [] ==> after == before && next == first
    requires content[t].1 != [] ==>
      after == before + [Heading(content[t].0)] + LayoutEntries(Entries(content[t].1, first, existing))
      && next == first + |content[t].1|
    ensures after == Layout(Outline(content[..t + 1], 1, existing)) && next == 1 + |AllItems(content[..t + 1])|
  {
    OutlineStep(content, t, 1, existing);
    var earlier := Outline(content[..t], 1, existing);
    if content[t].1 == [] {
      assert Outline(content[..t + 1], 1, existing) == earlier;
    } else {
      var s := Section(content[t].0, Entries(content[t].1, first, existing));
      assert Outline(content[..t + 1], 1, existing) == earlier + [s];
      LayoutStep(earlier, s);
    }
  }

  lemma LayoutEntriesStep(items: seq<Item>, j: nat, n: nat, existing: set<string>)
    requires j < |items|
    ensures LayoutEntries(Entries(items[..j + 1], n, existing))
      == LayoutEntries(Entries(items[..j], n, existing)) + EntryElements(EntryOf(items[j], n + j, existing))
  {
    var es := Entries(items[..j + 1], n, existing);
    assert es[..j] == Entries(items[..j], n, existing);
  }

  /** The appends generate_pdf makes for one item numbered questionNumber. */
  method AppendItem(elements: seq<Element>, line: Item, questionNumber: nat, existing: set<string>)
    returns (extended: seq<Element>)
    ensures extended == elements + EntryElements(EntryOf(line, questionNumber, existing))
  {
    extended := elements;
    match line {
      case Text(text) =>
        extended := extended + [Paragraph(Digits(questionNumber) + ". " + Strip(text))];
      case Figure(imagePath, description) =>
        if imagePath in existing {
          extended := extended + [Paragraph(Digits(questionNumber) + ". " + description)];
          extended := extended + [Spacer(1, 9)];
          extended := extended + [Picture(imagePath)];
        } else {
          extended := extended + [Paragraph(Digits(questionNumber) + ". " + description)];
        }
    }
    extended := extended + [Spacer(1, 12)];
  }

  lemma EntriesConcat(a: seq<Item>, b: seq<Item>, n: nat, existing: set<string>)
    ensures Entries(a + b, n, existing) == Entries(a, n, existing) + Entries(b, n + |a|, existing)
  {
  }

  lemma AllEntriesStep(sections: seq<Section>, s: Section)
    ensures AllEntries(sections + [s]) == AllEntries(sections) + s.entries
  {
    assert (sections + [s])[..|sections|] == sections;
  }

  /** Numbering runs across the whole document: read in order, the entries are
      the items of all topics, numbered consecutively from n. */
  lemma {:induction false} OutlineEntries(content: Content, n: nat, existing: set<string>)
    ensures AllEntries(Outline(content, n, existing)) == Entries(AllItems(content), n, existing)
  {
    if content != [] {
      var earlier := content[..|content| - 1];
      var (name, items) := content[|content| - 1];
      OutlineEntries(earlier, n, existing);
      var before := Outline(earlier, n, existing);
      var first := n + |AllItems(earlier)|;
      assert AllItems(content) == AllItems(earlier) + items;
      EntriesConcat(AllItems(earlier), items, n, existing);
      if items == [] {
        assert Outline(content, n, existing) == before;
        assert AllItems(content) == AllItems(earlier);
      } else {
        var s := Section(name, Entries(items, first, existing));
        assert Outline(content, n, existing) == before + [s];
        AllEntriesStep(before, s);
      }
    }
  }

  /** The i-th entry of the document, counted across all topics, is numbered n + i:
      a topic does not restart the count, and the count ends at n + the number of items. */
  lemma OutlineNumbering(content: Content, n: nat, existing: set<string>)
    ensures |AllEntries(Outline(content, n, existing))| == |AllItems(content)|
    ensures forall i :: 0 <= i < |AllItems(content)| ==> AllEntries(Outline(content, n, existing))[i].number == n + i
  {
    OutlineEntries(content, n, existing);
  }

  /** Exactly the non-empty topics get a section, in dictionary order, each headed
      by its topic name and holding one entry per item. */
  lemma {:induction false} OutlineSections(content: Content, n: nat, existing: set<string>)
    ensures |Outline(content, n, existing)| == |NonEmptyTopics(content)|
    ensures forall k :: 0 <= k < |Outline(content, n, existing)| ==>
      Outline(content, n, existing)[k].title == NonEmptyTopics(content)[k].0
      && |Outline(content, n, existing)[k].entries| == |NonEmptyTopics(content)[k].1| > 0
  {
    if content != [] {
      var earlier := content[..|content| - 1];
      var (name, items) := content[|content| - 1];
      OutlineSections(earlier, n, existing);
      var before := Outline(earlier, n, existing);
      var kept := NonEmptyTopics(earlier);
      if items == [] {
        assert Outline(content, n, existing) == before;
        assert NonEmptyTopics(content) == kept;
      } else {
        var s := Section(name, Entries(items, n + |AllItems(earlier)|, existing));
        assert Outline(content, n, existing) == before + [s];
        assert NonEmptyTopics(content) == kept + [(name, items)];
      }
    }
  }

  /** A topic with no items adds no item to the document. */
  lemma {:induction false} EmptyTopicNoItems(a: Content, name: string, b: Content)
    ensures AllItems(a + [(name, [])] + b) == AllItems(a + b)
  {
    var c := a + [(name, [])] + b;
    if b == [] {
      assert c[..|c| - 1] == a;
      assert a + b == a;
    } else {
      var b' := b[..|b| - 1];
      EmptyTopicNoItems(a, name, b');
      assert c[..|c| - 1] == a + [(name, [])] + b';
      assert (a + b)[..|a + b| - 1] == a + b';
      assert c[|c| - 1] == (a + b)[|a + b| - 1];
    }
  }

  /** One more topic at the end of the dictionary adds its section, if it has items,
      after the sections of the topics before it. */
  lemma OutlineSnoc(earlier: Content, last: (string, seq<Item>), n: nat, existing: set<string>)
    ensures Outline(earlier + [last], n, existing) == Outline(earlier, n, existing)
      + (if last.1 == [] then [] else [Section(last.0, Entries(last.1, n + |AllItems(earlier)|, existing))])
  {
    assert (earlier + [last])[..|earlier|] == earlier;
  }

  /** A topic with no items leaves no trace: no heading, no entry, no number used. */
  lemma {:induction false} EmptyTopicInvisible(a: Content, name: string, b: Content, n: nat, existing: set<string>)
    ensures AllItems(a + [(name, [])] + b) == AllItems(a + b)
    ensures Outline(a + [(name, [])] + b, n, existing) == Outline(a + b, n, existing)
  {
    EmptyTopicNoItems(a, name, b);
    if b == [] {
      OutlineSnoc(a, (name, []), n, existing);
      assert a + [(name, [])] + b == a + [(name, [])];
      assert a + b == a;
    } else {
      var b', last := b[..|b| - 1], b[|b| - 1];
      EmptyTopicInvisible(a, name, b', n, existing);
      EmptyTopicNoItems(a, name, b');
      assert b == b' + [last];
      assert a + [(name, [])] + b == (a + [(name, [])] + b') + [last];
      assert a + b == (a + b') + [last];
      SameOutlineSnoc(a + [(name, [])] + b', a + b', last, n, existing);
    }
  }

  /** Two dictionaries with the same outline and item count keep them equal when one
      more topic is added to both. */
  lemma SameOutlineSnoc(c: Content, d: Content, last: (string, seq<Item>), n: nat, existing: set<string>)
    requires AllItems(c) == AllItems(d) && Outline(c, n, existing) == Outline(d, n, existing)
    ensures Outline(c + [last], n, existing) == Outline(d + [last], n, existing)
  {
    OutlineSnoc(c, last, n, existing);
    OutlineSnoc(d, last, n, existing);
  }

  /** What the element list carries for one entry: the paragraph's text and the picture under it. */
  datatype Line = Line(text: string, image: Option<string>)

  /** What the element list carries for one section: the heading and the lines under it. */
  datatype Block = Block(title: string, lines: seq<Line>)

  function LineOf(e: Entry): Line {
    Line(Digits(e.number) + ". " + e.body, e.image)
  }

  function Lines(entries: seq<Entry>): (r: seq<Line>)
    ensures |r| == |entries|
  {
    seq(|entries|, i requires 0 <= i < |entries| => LineOf(entries[i]))
  }

  function Blocks(sections: seq<Section>): (r: seq<Block>)
    ensures |r| == |sections|
  {
    seq(|sections|, i requires 0 <= i < |sections| => Block(sections[i].title, Lines(sections[i].entries)))
  }

  /** The paragraph text "n. body" gives back both the number and the body. */
  lemma LineOfInjective(a: Entry, b: Entry)
    requires LineOf(a) == LineOf(b)
    ensures a == b
  {
    AppendAssociative(Digits(a.number), ". ", a.body);
    AppendAssociative(Digits(b.number), ". ", b.body);
    DigitsThenText(a.number, ". " + a.body, b.number, ". " + b.body);
    assert a.body == (". " + a.body)[2..];
    assert b.body == (". " + b.body)[2..];
  }

  lemma BlocksInjective(a: seq<Section>, b: seq<Section>)
    requires Blocks(a) == Blocks(b)
    ensures a == b
  {
    forall k | 0 <= k < |a|
      ensures a[k] == b[k]
    {
      assert Blocks(a)[k] == Blocks(b)[k];
      var ea, eb := a[k].entries, b[k].entries;
      assert Lines(ea) == Lines(eb);
      forall i | 0 <= i < |ea|
        ensures ea[i] == eb[i]
      {
        assert Lines(ea)[i] == Lines(eb)[i];
        LineOfInjective(ea[i], eb[i]);
      }
    }
  }

  /** The last entry of an element list ending with Spacer(1, 12): its paragraph text,
      its picture if one stands before that spacer, and the length of what comes before it. */
  function ReadLine(elements: seq<Element>): (r: Option<(nat, Line)>)
    ensures r.Some? ==> r.value.0 < |elements|
  {
    var n := |elements|;
    if n >= 4 && elements[n - 1] == Spacer(1, 12) && elements[n - 2].Picture?
       && elements[n - 3] == Spacer(1, 9) && elements[n - 4].Paragraph?
    then Some((n - 4, Line(elements[n - 4].text, Some(elements[n - 2].path))))
    else if n >= 2 && elements[n - 1] == Spacer(1, 12) && elements[n - 2].Paragraph? then
      Some((n - 2, Line(elements[n - 2].text, None)))
    else None
  }

  /** Reads an element list back into headed blocks of lines, from its end. */
  function ReadBack(elements: seq<Element>): Option<seq<Block>>
    decreases |elements|
  {
    if elements == [] then Some([])
    else if elements[|elements| - 1].Heading? then
      match ReadBack(elements[..|elements| - 1])
      case Some(blocks) => Some(blocks + [Block(elements[|elements| - 1].title, [])])
      case None => None
    else
      match ReadLine(elements)
      case None => None
      case Some((rest, line)) =>
        match ReadBack(elements[..rest])
        case Some(blocks) =>
          if blocks == [] then None
          else
            var last := blocks[|blocks| - 1];
            Some(blocks[..|blocks| - 1] + [Block(last.title, last.lines + [line])])
        case None => None
  }

  lemma ReadBackHeading(prefix: seq<Element>, blocks: seq<Block>, title: string)
    requires ReadBack(prefix) == Some(blocks)
    ensures ReadBack(prefix + [Heading(title)]) == Some(blocks + [Block(title, [])])
  {
    var elements := prefix + [Heading(title)];
    assert elements[..|elements| - 1] == prefix;
  }

  lemma ReadBackEntry(prefix: seq<Element>, earlier: seq<Block>, title: string, lines: seq<Line>, e: Entry)
    requires ReadBack(prefix) == Some(earlier + [Block(title, lines)])
    ensures ReadBack(prefix + EntryElements(e)) == Some(earlier + [Block(title, lines + [LineOf(e)])])
  {
    var elements := prefix + EntryElements(e);
    var blocks := earlier + [Block(title, lines)];
    assert ReadLine(elements) == Some((|prefix|, LineOf(e)));
    assert elements[..|prefix|] == prefix;
    assert elements[|elements| - 1] == Spacer(1, 12);
    assert blocks[..|blocks| - 1] == earlier;
  }

  /** After a block's heading, each entry's elements read back as one more line of that block. */
  lemma {:induction false} ReadBackEntries(prefix: seq<Element>, earlier: seq<Block>, title: string,
                                           lines: seq<Line>, entries: seq<Entry>)
    requires ReadBack(prefix) == Some(earlier + [Block(title, lines)])
    ensures ReadBack(prefix + LayoutEntries(entries)) == Some(earlier + [Block(title, lines + Lines(entries))])
    decreases |entries|
  {
    if entries == [] {
      assert prefix + LayoutEntries(entries) == prefix;
      assert lines + Lines(entries) == lines;
    } else {
      var es := entries[..|entries| - 1];
      var e := entries[|entries| - 1];
      ReadBackEntries(prefix, earlier, title, lines, es);
      ReadBackEntry(prefix + LayoutEntries(es), earlier, title, lines + Lines(es), e);
      LayoutEntriesAfter(prefix, entries);
      LinesAfter(lines, entries);
    }
  }

  lemma LayoutEntriesAfter(prefix: seq<Element>, entries: seq<Entry>)
    requires entries != []
    ensures prefix + LayoutEntries(entries)
      == prefix + LayoutEntries(entries[..|entries| - 1]) + EntryElements(entries[|entries| - 1])
  {
    AppendAssociative(prefix, LayoutEntries(entries[..|entries| - 1]), EntryElements(entries[|entries| - 1]));
  }

  lemma LinesAfter(lines: seq<Line>, entries: seq<Entry>)
    requires entries != []
    ensures lines + Lines(entries) == lines + Lines(entries[..|entries| - 1]) + [LineOf(entries[|entries| - 1])]
  {
  }

  lemma ReadBackSection(prefix: seq<Element>, blocks: seq<Block>, title: string, entries: seq<Entry>)
    requires ReadBack(prefix) == Some(blocks)
    ensures ReadBack(prefix + [Heading(title)] + LayoutEntries(entries)) == Some(blocks + [Block(title, Lines(entries))])
  {
    ReadBackHeading(prefix, blocks, title);
    ReadBackEntries(prefix + [Heading(title)], blocks, title, [], entries);
    assert [] + Lines(entries) == Lines(entries);
  }

  /** The element list reads back as the headings and paragraph lines of the sections it was laid out from. */
  lemma {:induction false} ReadBackLayout(sections: seq<Section>)
    ensures ReadBack(Layout(sections)) == Some(Blocks(sections))
  {
    if sections != [] {
      var earlier := sections[..|sections| - 1];
      var s := sections[|sections| - 1];
      ReadBackLayout(earlier);
      ReadBackSection(Layout(earlier), Blocks(earlier), s.title, s.entries);
      BlocksAfter(sections);
    }
  }

  lemma BlocksAfter(sections: seq<Section>)
    requires sections != []
    ensures Blocks(sections) == Blocks(sections[..|sections| - 1])
      + [Block(sections[|sections| - 1].title, Lines(sections[|sections| - 1].entries))]
  {
  }

  /** The element list loses nothing: different sections never give the same elements. */
  lemma LayoutInjective(a: seq<Section>, b: seq<Section>)
    requires Layout(a) == Layout(b)
    ensures a == b
  {
    ReadBackLayout(a);
    ReadBackLayout(b);
    BlocksInjective(a, b);
  }

  lemma {:induction false} LayoutEntriesShape(entries: seq<Entry>)
    ensures entries != [] ==>
      (|LayoutEntries(entries)| > 0 && LayoutEntries(entries)[0].Paragraph?
       && LayoutEntries(entries)[|LayoutEntries(entries)| - 1] == Spacer(1, 12))
    ensures forall k :: 0 <= k < |LayoutEntries(entries)| ==> !LayoutEntries(entries)[k].Heading?
  {
    if entries != [] {
      LayoutEntriesShape(entries[..|entries| - 1]);
    }
  }

  /** In a layout of non-empty sections every heading is immediately followed by the
      paragraph of its topic's first item, and the list ends with that item's spacer. */
  lemma {:induction false} HeadingThenFirstItem(sections: seq<Section>)
    requires forall k :: 0 <= k < |sections| ==> sections[k].entries != []
    ensures sections != [] ==> |Layout(sections)| > 0 && Layout(sections)[|Layout(sections)| - 1] == Spacer(1, 12)
    ensures forall k :: 0 <= k < |Layout(sections)| && Layout(sections)[k].Heading? ==>
      k + 1 < |Layout(sections)| && Layout(sections)[k + 1].Paragraph?
  {
    if sections != [] {
      var earlier := sections[..|sections| - 1];
      var s := sections[|sections| - 1];
      HeadingThenFirstItem(earlier);
      LayoutEntriesShape(s.entries);
      var l := Layout(earlier);
      var tail := LayoutEntries(s.entries);
      var all := Layout(sections);
      assert all == l + [Heading(s.title)] + tail;
      forall k | 0 <= k < |all| && all[k].Heading?
        ensures k + 1 < |all| && all[k + 1].Paragraph?
      {
        if k < |l| {
          assert all[k] == l[k];
          assert all[k + 1] == l[k + 1];
        } else if k == |l| {
          assert all[k + 1] == tail[0];
        }
      }
    }
  }

  /** The inner loop of generate_pdf: one topic's items, numbered on from questionNumber. */
  method AppendItems(elements: seq<Element>, topicContent: seq<Item>, questionNumber: nat, existing: set<string>)
    returns (extended: seq<Element>, next: nat)
    ensures extended == elements + LayoutEntries(Entries(topicContent, questionNumber, existing))
    ensures next == questionNumber + |topicContent|
  {
    extended, next := elements, questionNumber;
    for j := 0 to |topicContent|
      invariant next == questionNumber + j
      invariant extended == elements + LayoutEntries(Entries(topicContent[..j], questionNumber, existing))
    {
      ghost var done := LayoutEntries(Entries(topicContent[..j], questionNumber, existing));
      ghost var step := EntryElements(EntryOf(topicContent[j], next, existing));
      LayoutEntriesStep(topicContent, j, questionNumber, existing);
      AppendAssociative(elements, done, step);
      extended := AppendItem(extended, topicContent[j], next, existing);
      assert extended == elements + (done + step);
      next := next + 1;
    }
    assert topicContent[..|topicContent|] == topicContent;
  }

  /** The element list of generate_pdf(filepath, content). `existing` is the set
      of image paths os.path.exists accepts; the counter's final value is returned too. */
  method GeneratePdf(content: Content, existing: set<string>) returns (elements: seq<Element>, questionNumber: nat)
    ensures elements == Layout(Outline(content, 1, existing))
    ensures questionNumber == 1 + |AllItems(content)|
  {
    elements := [];
    questionNumber := 1;
    for t := 0 to |content|
      invariant questionNumber == 1 + |AllItems(content[..t])|
      invariant elements == Layout(Outline(content[..t], 1, existing))
    {
      var topicName, topicContent := content[t].0, content[t].1;
      if topicContent == [] {
        TopicStep(content, t, existing, elements, questionNumber, elements, questionNumber);
        continue;
      }
      ghost var before, first := elements, questionNumber;
      elements := elements + [Heading(topicName)];
      elements, questionNumber := AppendItems(elements, topicContent, questionNumber, existing);
      TopicStep(content, t, existing, before, first, elements, questionNumber);
    }
    assert content[..|content|] == content;
  }
}
