/** The configuration parser of utils/src/cfg_parser.c: lines of keys and nested sections. */
module CfgParser {
  import opened SetList
  import StrPacket
  import opened Words
  import opened Wrappers

  const LINE_LEN := 168
  const NL: Letter := 10
  const OPEN: Letter := 123
  const CLOSE: Letter := 125
  const EQUALS: Letter := 61
  const DEFAULT_TITLE: Text := [100, 101, 102, 97, 117, 108, 116]

  datatype Key = Key(name: Text, value: Text)
  datatype Sect = Sect(title: Text, keys: seq<Key>, subs: seq<Sect>)

  // ----- lines

  predicate Ended(t: Text) {
    t == [] || t[|t| - 1] == NL
  }

  function LineEnd(t: Text): (n: nat)
    requires t != [] && Ended(t)
    ensures n < |t| && t[n] == NL && NL !in t[..n]
  {
    if t[0] == NL then 0 else LineEnd(t[1..]) + 1
  }

  /** The characters one line takes from the text: with its newline, unless it is too long
      for the line buffer, which then takes what fits and leaves the rest as a line. */
  function Taken(t: Text): (n: nat)
    requires t != [] && Ended(t)
    ensures 0 < n <= |t| && Ended(t[n..])
  {
    if LineEnd(t) < LINE_LEN then LineEnd(t) + 1 else LINE_LEN
  }

  /** The line buffer: the last character of an overlong line is lost. */
  function Line(t: Text): (l: Text)
    requires t != [] && Ended(t)
    ensures |l| < LINE_LEN
  {
    t[..Taken(t) - 1]
  }

  /** What strchr finds. */
  function IndexOf(l: Text, c: Letter): (r: Option<nat>)
    ensures r.Some? <==> c in l
    ensures r.Some? ==> r.value < |l| && l[r.value] == c && c !in l[..r.value]
  {
    if l == [] then None
    else if l[0] == c then Some(0)
    else
      var r := IndexOf(l[1..], c);
      if r.Some? then Some(r.value + 1) else None
  }

  // ----- the grammar

  /** Either the section read and the text left, or nothing for texts the parser gives no
      meaning to: a key without a value or a field too long for a string object. */
  datatype Found = Undefined | Found(sect: Sect, left: Text)

  predicate Fits(t: Text) {
    |t| < StrPacket.MAX_STRING_LEN
  }

  predicate Opens(t: Text)
    requires t != [] && Ended(t)
  {
    CLOSE !in Line(t) && OPEN in Line(t)
  }

  /** Every section takes at least one character. */
  function Section(t: Text): (r: Found)
    requires t != [] && Ended(t)
    ensures r.Found? ==> |r.left| < |t| && Ended(r.left)
    decreases |t|, 1
  {
    var c := IndexOf(Line(t), OPEN);
    if c.None? then Body(t, Sect(DEFAULT_TITLE, [], []))
    else if !Fits(Line(t)[..c.value]) then Undefined
    else Body(t[Taken(t)..], Sect(Line(t)[..c.value], [], []))
  }

  /** The rest of the section s, up to a closing line or the end of the text. */
  function Body(t: Text, s: Sect): (r: Found)
    requires Ended(t)
    ensures r.Found? ==> Ended(r.left) && (|r.left| < |t| || t == r.left == [])
    decreases |t|, if t != [] && Opens(t) then 2 else 0
  {
    if t == [] then Found(s, t)
    else if CLOSE in Line(t) then Found(s, t[Taken(t)..])
    else if OPEN in Line(t) then
      var sub := Section(t);
      if sub.Undefined? then Undefined
      else Body(sub.left, s.(subs := [sub.sect] + s.subs))
    else
      var key := KeyOf(Line(t));
      if key.None? then Undefined
      else Body(t[Taken(t)..], s.(keys := [key.value] + s.keys))
  }

  function KeyOf(l: Text): (r: Option<Key>)
    ensures r.Some? ==> r.value.name + [EQUALS] + r.value.value == l && EQUALS !in r.value.name
  {
    var c := IndexOf(l, EQUALS);
    if c.None? || !Fits(l[..c.value]) || !Fits(l[c.value + 1..]) then None
    else Some(Key(l[..c.value], l[c.value + 1..]))
  }

  /** All sections of a text, the last one first. */
  function File(t: Text, done: seq<Sect>): Option<seq<Sect>>
    requires Ended(t)
    decreases |t|
  {
    if t == [] then Some(done)
    else
      var r := Section(t);
      if r.Undefined? then None else File(r.left, [r.sect] + done)
  }

  // ----- printing

  /** A section's lines in the order they are written, keys and sub-sections mixed. */
  datatype Item = KeyItem(key: Key) | SubItem(title: Text, items: seq<Item>)

  function Print(item: Item): Text {
    match item
    case KeyItem(k) => k.name + [EQUALS] + k.value + [NL]
    case SubItem(title, items) => title + [OPEN] + [NL] + PrintAll(items) + ([CLOSE] + [NL])
  }

  function PrintAll(items: seq<Item>): Text {
    if items == [] then [] else Print(items[0]) + PrintAll(items[1..])
  }

  function KeysOf(items: seq<Item>): seq<Key> {
    if items == [] then []
    else (if items[0].KeyItem? then [items[0].key] else []) + KeysOf(items[1..])
  }

  /** The sections a list of items stands for: Set_put leaves keys and sub-sections in
      reversed order. */
  function TreesOf(items: seq<Item>): seq<Sect>
    decreases items, 0
  {
    if items == [] then []
    else (if items[0].SubItem? then [Tree(items[0].title, items[0].items)] else []) + TreesOf(items[1..])
  }

  function Tree(title: Text, items: seq<Item>): Sect
    decreases items, 1
  {
    Sect(title, Reverse(KeysOf(items)), Reverse(TreesOf(items)))
  }

  predicate Plain(t: Text) {
    NL !in t && OPEN !in t && CLOSE !in t
  }

  /** A key that is one line of text, with its name ending at the first equals sign. */
  predicate OneLine(k: Key) {
    Plain(k.name) && Plain(k.value) && EQUALS !in k.name
  }

  predicate Printable(item: Item) {
    match item
    case KeyItem(k) => OneLine(k) && KeyFits(k)
    case SubItem(title, items) => Plain(title) && Fits(title) && AllPrintable(items)
  }

  predicate KeyFits(k: Key) {
    Fits(k.name) && Fits(k.value) && |k.name| + 1 + |k.value| < LINE_LEN
  }

  predicate AllPrintable(items: seq<Item>) {
    items == [] || (Printable(items[0]) && AllPrintable(items[1..]))
  }

  // ----- parsing what was printed

  lemma {:induction false} LineEndOf(l: Text, rest: Text)
    requires NL !in l && Ended(rest)
    ensures Ended(l + [NL] + rest) && LineEnd(l + [NL] + rest) == |l|
  {
    if l != [] {
      LineEndOf(l[1..], rest);
      assert (l + [NL] + rest)[1..] == l[1..] + [NL] + rest;
    }
  }

  lemma {:induction false} FirstLine(l: Text, rest: Text)
    requires NL !in l && Ended(rest) && |l| < LINE_LEN
    ensures var t := l + [NL] + rest;
            Ended(t) && Line(t) == l && Taken(t) == |l| + 1 && t[Taken(t)..] == rest
  {
    LineEndOf(l, rest);
  }

  /** A line that is too long gives up its first 168 characters, and the last of these is
      lost. */
  lemma {:induction false} LongLine(l: Text, rest: Text)
    requires NL !in l && Ended(rest) && |l| >= LINE_LEN
    ensures var t := l + [NL] + rest;
            Ended(t) && Line(t) == l[..LINE_LEN - 1] && t[Taken(t)..] == l[LINE_LEN..] + [NL] + rest
  {
    LineEndOf(l, rest);
    var t := l + [NL] + rest;
    assert t[LINE_LEN..] == l[LINE_LEN..] + [NL] + rest;
  }

  lemma {:induction false} IndexOfFirst(a: Text, c: Letter, b: Text)
    requires c !in a
    ensures IndexOf(a + [c] + b, c) == Some(|a|)
    ensures (a + [c] + b)[..|a|] == a && (a + [c] + b)[|a| + 1..] == b
  {
    if a != [] {
      IndexOfFirst(a[1..], c, b);
      assert (a + [c] + b)[1..] == a[1..] + [c] + b && a[0] != c;
    } else {
      assert ([c] + b)[0] == c;
    }
  }

  lemma {:induction false} KeyOfLine(k: Key)
    requires EQUALS !in k.name
    ensures KeyOf(k.name + [EQUALS] + k.value) == if Fits(k.name) && Fits(k.value) then Some(k) else None
  {
    IndexOfFirst(k.name, EQUALS, k.value);
  }

  lemma {:induction false} PlainLine(k: Key)
    requires OneLine(k)
    ensures Plain(k.name + [EQUALS] + k.value)
  {}

  lemma {:induction false} BodyOfKey(k: Key, rest: Text, s: Sect)
    requires OneLine(k) && KeyFits(k) && Ended(rest)
    ensures var t := Print(KeyItem(k)) + rest;
            Ended(t) && t != [] && Body(t, s) == Body(rest, s.(keys := [k] + s.keys))
  {
    var l := k.name + [EQUALS] + k.value;
    PlainLine(k);
    FirstLine(l, rest);
    KeyOfLine(k);
    assert Print(KeyItem(k)) + rest == l + [NL] + rest;
  }

  lemma {:induction false} BodyOfClose(rest: Text, s: Sect)
    requires Ended(rest)
    ensures var t := [CLOSE] + [NL] + rest; Ended(t) && Body(t, s) == Found(s, rest)
  {
    FirstLine([CLOSE], rest);
  }

  lemma {:induction false} SectionOfHeader(title: Text, rest: Text)
    requires Plain(title) && Fits(title) && Ended(rest)
    ensures var t := title + [OPEN] + [NL] + rest;
            Ended(t) && Section(t) == Body(rest, Sect(title, [], [])) && Opens(t)
  {
    var l := title + [OPEN];
    FirstLine(l, rest);
    IndexOfFirst(title, OPEN, []);
    assert title + [OPEN] + [] == l;
  }

  lemma {:induction false} EndedBefore(a: Text, b: Text)
    requires Ended(a) && Ended(b)
    ensures Ended(a + b)
  {}

  lemma {:induction false} PrintEnded(item: Item)
    ensures Ended(Print(item)) && Print(item) != []
  {}

  lemma {:induction false} PrintAllEnded(items: seq<Item>)
    ensures Ended(PrintAll(items))
  {
    if items != [] {
      PrintEnded(items[0]);
      PrintAllEnded(items[1..]);
      EndedBefore(Print(items[0]), PrintAll(items[1..]));
    }
  }

  /** The section s with more keys and sub-sections put into it. */
  function Extended(s: Sect, keys: seq<Key>, subs: seq<Sect>): Sect {
    Sect(s.title, Reverse(keys) + s.keys, Reverse(subs) + s.subs)
  }

  lemma {:induction false} ExtendedKey(s: Sect, k: Key, keys: seq<Key>, subs: seq<Sect>)
    ensures Extended(s.(keys := [k] + s.keys), keys, subs) == Extended(s, [k] + keys, subs)
  {
    assert ([k] + keys)[1..] == keys;
    Regroup(Reverse(keys), k, s.keys);
  }

  lemma {:induction false} ExtendedSub(s: Sect, sub: Sect, keys: seq<Key>, subs: seq<Sect>)
    ensures Extended(s.(subs := [sub] + s.subs), keys, subs) == Extended(s, keys, [sub] + subs)
  {
    assert ([sub] + subs)[1..] == subs;
    Regroup(Reverse(subs), sub, s.subs);
  }

  lemma {:induction false} ExtendedNew(title: Text, items: seq<Item>)
    ensures Extended(Sect(title, [], []), KeysOf(items), TreesOf(items)) == Tree(title, items)
    ensures forall s: Sect :: Extended(s, [], []) == s
  {}

  lemma {:induction false} BodyOfSub(t: Text, sub: Sect, rest: Text, s: Sect)
    requires t != [] && Ended(t) && Opens(t) && Section(t) == Found(sub, rest)
    ensures Body(t, s) == Body(rest, s.(subs := [sub] + s.subs))
  {
    hide Section;
  }

  lemma {:induction false} PrintedFirst(items: seq<Item>, rest: Text)
    requires items != [] && AllPrintable(items)
    ensures PrintAll(items) + rest == Print(items[0]) + (PrintAll(items[1..]) + rest)
    ensures match items[0]
            case KeyItem(k) =>
              OneLine(k) && KeyFits(k)
              && KeysOf(items) == [k] + KeysOf(items[1..]) && TreesOf(items) == TreesOf(items[1..])
            case SubItem(title, inner) =>
              Plain(title) && Fits(title) && AllPrintable(inner)
              && KeysOf(items) == KeysOf(items[1..]) && TreesOf(items) == [Tree(title, inner)] + TreesOf(items[1..])
    ensures AllPrintable(items[1..])
  {
    hide Print, Plain, Fits, OneLine, KeyFits, Tree;
  }

  /** Parsing a printed sub-section, whatever text follows it. */
  lemma {:induction false} SectionOfPrint(title: Text, items: seq<Item>, rest: Text)
    requires Plain(title) && Fits(title) && AllPrintable(items) && Ended(rest)
    ensures var t := Print(SubItem(title, items)) + rest;
            t != [] && Ended(t) && Opens(t) && Section(t) == Found(Tree(title, items), rest)
    decreases items, 1
  {
    var close := [CLOSE] + [NL] + rest;
    var body := PrintAll(items) + close;
    var t := title + [OPEN] + [NL] + body;
    assert Print(SubItem(title, items)) + rest == t && t != [];
    hide *;
    BodyOfClose(rest, Tree(title, items));
    BodyOfPrint(items, close, Sect(title, [], []));
    SectionOfHeader(title, body);
    ExtendedNew(title, items);
  }

  /** Parsing printed lines puts their keys and sub-sections into the section. */
  lemma {:induction false} BodyOfPrint(items: seq<Item>, rest: Text, s: Sect)
    requires AllPrintable(items) && Ended(rest)
    ensures Ended(PrintAll(items) + rest)
    ensures Body(PrintAll(items) + rest, s) == Body(rest, Extended(s, KeysOf(items), TreesOf(items)))
    decreases items, 0
  {
    if items == [] {
      ExtendedNew([], []);
      assert PrintAll(items) + rest == rest;
    } else {
      PrintedFirst(items, rest);
      var keys, subs := KeysOf(items[1..]), TreesOf(items[1..]);
      var more := PrintAll(items[1..]) + rest;
      match items[0]
      case KeyItem(k) =>
        hide *;
        BodyOfPrint(items[1..], rest, s.(keys := [k] + s.keys));
        BodyOfKey(k, more, s);
        ExtendedKey(s, k, keys, subs);
      case SubItem(title, inner) =>
        hide *;
        var sub := Tree(title, inner);
        BodyOfPrint(items[1..], rest, s.(subs := [sub] + s.subs));
        SectionOfPrint(title, inner, more);
        BodyOfSub(Print(items[0]) + more, sub, more, s);
        ExtendedSub(s, sub, keys, subs);
    }
  }

  /** The sections a document is read as, the last one first: a key outside of any section
      begins one with the default title, which takes all that follows. */
  function SectionsOf(doc: seq<Item>): seq<Sect> {
    if doc == [] then []
    else if doc[0].KeyItem? then [Tree(DEFAULT_TITLE, doc)]
    else SectionsOf(doc[1..]) + [Tree(doc[0].title, doc[0].items)]
  }

  /** Parsing a printed document, any document, gives back its sections, with sections,
      keys and sub-sections in reversed order. */
  lemma {:induction false} ParsePrint(doc: seq<Item>)
    requires AllPrintable(doc)
    ensures Ended(PrintAll(doc)) && File(PrintAll(doc), []) == Some(SectionsOf(doc))
  {
    hide *;
    ParsePrintOnto(doc, []);
    assert SectionsOf(doc) + [] == SectionsOf(doc);
  }

  lemma {:induction false} ParsePrintOnto(doc: seq<Item>, done: seq<Sect>)
    requires AllPrintable(doc)
    ensures Ended(PrintAll(doc)) && File(PrintAll(doc), done) == Some(SectionsOf(doc) + done)
    decreases |doc|
  {
    hide *;
    PrintAllEnded(doc);
    if doc == [] {
      NoSections(done);
    } else if doc[0].KeyItem? {
      ParseDefault(doc, done);
      DefaultSection(doc);
    } else {
      var sub := Tree(doc[0].title, doc[0].items);
      SectionFirst(doc);
      FileOfSection(PrintAll(doc), sub, PrintAll(doc[1..]), done);
      ParsePrintOnto(doc[1..], [sub] + done);
      assert SectionsOf(doc[1..]) + [sub] + done == SectionsOf(doc[1..]) + ([sub] + done);
    }
  }

  lemma {:induction false} NoSections(done: seq<Sect>)
    ensures PrintAll([]) == [] && Ended([]) && File([], done) == Some(SectionsOf([]) + done)
  {
    assert [] + done == done;
  }

  lemma {:induction false} SectionFirst(doc: seq<Item>)
    requires doc != [] && doc[0].SubItem? && AllPrintable(doc)
    ensures AllPrintable(doc[1..]) && PrintAll(doc) != [] && Ended(PrintAll(doc))
    ensures Section(PrintAll(doc)) == Found(Tree(doc[0].title, doc[0].items), PrintAll(doc[1..]))
    ensures SectionsOf(doc) == SectionsOf(doc[1..]) + [Tree(doc[0].title, doc[0].items)]
  {
    hide Section, Tree, Print, Plain;
    PrintAllEnded(doc);
    PrintAllEnded(doc[1..]);
    PrintedFirst(doc, []);
    assert PrintAll(doc[1..]) + [] == PrintAll(doc[1..]) && PrintAll(doc) + [] == PrintAll(doc);
    SectionOfPrint(doc[0].title, doc[0].items, PrintAll(doc[1..]));
  }

  lemma {:induction false} FileOfSection(t: Text, sub: Sect, more: Text, done: seq<Sect>)
    requires t != [] && Ended(t) && Section(t) == Found(sub, more)
    ensures Ended(more) && File(t, done) == File(more, [sub] + done)
  {
    hide Section;
  }

  lemma {:induction false} DefaultSection(doc: seq<Item>)
    requires doc != [] && doc[0].KeyItem?
    ensures SectionsOf(doc) == [Tree(DEFAULT_TITLE, doc)]
  {}

  /** A document of sections alone has exactly these, in reversed order. */
  lemma {:induction false} SectionsAlone(doc: seq<Item>)
    requires forall i :: 0 <= i < |doc| ==> doc[i].SubItem?
    ensures SectionsOf(doc) == Reverse(TreesOf(doc))
  {
    hide Tree;
    if doc != [] {
      SectionsAlone(doc[1..]);
      assert ([Tree(doc[0].title, doc[0].items)] + TreesOf(doc[1..]))[1..] == TreesOf(doc[1..]);
    }
  }

  /** A text that begins with a key is one section with the default title. */
  lemma {:induction false} ParseDefault(items: seq<Item>, done: seq<Sect>)
    requires AllPrintable(items) && items != [] && items[0].KeyItem?
    ensures Ended(PrintAll(items)) && File(PrintAll(items), done) == Some([Tree(DEFAULT_TITLE, items)] + done)
  {
    var t, start := PrintAll(items), Sect(DEFAULT_TITLE, [], []);
    var k, more := items[0].key, PrintAll(items[1..]) + [];
    var whole := Tree(DEFAULT_TITLE, items);
    PrintAllEnded(items);
    PrintedFirst(items, []);
    assert t + [] == t;
    assert Body([], whole) == Found(whole, []);
    hide *;
    BodyOfPrint(items, [], start);
    ExtendedNew(DEFAULT_TITLE, items);
    BodyOfKey(k, more, start);
    KeyHasNoHeader(k, more);
    FileOfDefault(t, whole, done);
  }

  lemma {:induction false} FileOfDefault(t: Text, s: Sect, done: seq<Sect>)
    requires t != [] && Ended(t) && IndexOf(Line(t), OPEN).None?
    requires Body(t, Sect(DEFAULT_TITLE, [], [])) == Found(s, [])
    ensures File(t, done) == Some([s] + done)
  {
    hide Body, Line, IndexOf;
    assert Section(t) == Found(s, []);
    assert File([], [s] + done) == Some([s] + done);
  }

  lemma {:induction false} KeyHasNoHeader(k: Key, rest: Text)
    requires OneLine(k) && KeyFits(k) && Ended(rest)
    ensures var t := Print(KeyItem(k)) + rest; Ended(t) && t != [] && IndexOf(Line(t), OPEN).None?
  {
    var l := k.name + [EQUALS] + k.value;
    PlainLine(k);
    FirstLine(l, rest);
    assert Print(KeyItem(k)) + rest == l + [NL] + rest;
  }

  // ----- exactly which keys survive

  /** Reading on never takes a key away. */
  lemma {:induction false} KeysStay(t: Text, s: Sect)
    requires Ended(t) && Body(t, s).Found?
    ensures |s.keys| <= |Body(t, s).sect.keys|
    decreases |t|
  {
    hide Line, Taken, KeyOf;
    if t == [] || CLOSE in Line(t) {
    } else if OPEN in Line(t) {
      var sub := Section(t);
      KeysStay(sub.left, s.(subs := [sub.sect] + s.subs));
    } else {
      var key := KeyOf(Line(t));
      KeysStay(t[Taken(t)..], s.(keys := [key.value] + s.keys));
    }
  }

  /** A line too long for the buffer is read as at least two keys, if at all. */
  lemma {:induction false} LongLineSplits(l: Text, s: Sect)
    requires Plain(l) && |l| >= LINE_LEN
    ensures Ended(l + [NL])
    ensures var r := Body(l + [NL], s); r.Found? ==> |s.keys| + 2 <= |r.sect.keys|
  {
    var t := l + [NL];
    LineEndOf(l, []);
    assert t == l + [NL] + [] && Taken(t) == LINE_LEN && Line(t) == l[..LINE_LEN - 1];
    hide *;
    PlainSuffix(l, 0);
    PlainSuffix(l, LINE_LEN);
    assert t[0..] == t;
    if Body(t, s).Found? {
      KeyTurn(t, s);
      KeyTurn(t[LINE_LEN..], s.(keys := [KeyOf(Line(t)).value] + s.keys));
    }
  }

  /** A line without braces adds a key, if it is one. */
  lemma {:induction false} KeyTurn(t: Text, s: Sect)
    requires t != [] && Ended(t) && CLOSE !in Line(t) && OPEN !in Line(t) && Body(t, s).Found?
    ensures KeyOf(Line(t)).Some?
    ensures Body(t, s) == Body(t[Taken(t)..], s.(keys := [KeyOf(Line(t)).value] + s.keys))
    ensures |s.keys| + 1 <= |Body(t, s).sect.keys|
  {
    hide Line, Taken, KeyOf, Ended;
    KeysStay(t[Taken(t)..], s.(keys := [KeyOf(Line(t)).value] + s.keys));
  }

  lemma {:induction false} PlainSuffix(l: Text, n: nat)
    requires Plain(l) && n <= |l|
    ensures var more := (l + [NL])[n..];
            Ended(more) && more != [] && CLOSE !in Line(more) && OPEN !in Line(more)
  {
    var more := (l + [NL])[n..];
    assert more == l[n..] + [NL] + [];
    LineEndOf(l[n..], []);
    assert forall c :: c in Line(more) ==> c in l;
  }

  /** A key written on one line is read back as that key if and only if both fields fit a
      string object and the line fits the line buffer. */
  lemma {:induction false} KeyReadBackIff(k: Key, s: Sect)
    requires OneLine(k)
    ensures Ended(Print(KeyItem(k)))
    ensures Body(Print(KeyItem(k)), s) == Found(s.(keys := [k] + s.keys), []) <==> KeyFits(k)
  {
    var l, t := k.name + [EQUALS] + k.value, Print(KeyItem(k));
    assert t == l + [NL] && t + [] == t;
    PlainLine(k);
    if KeyFits(k) {
      BodyOfKey(k, [], s);
    } else if |l| >= LINE_LEN {
      LongLineSplits(l, s);
    } else {
      FirstLine(l, []);
      assert l + [NL] + [] == t;
      KeyOfLine(k);
    }
  }

  // ----- the parser

  lemma {:induction false} LineStops(t: Text)
    requires t != [] && Ended(t)
    ensures forall k :: 0 <= k < LineEnd(t) ==> t[k] != NL
  {
    forall k | 0 <= k < LineEnd(t) ensures t[k] != NL { assert t[k] == t[..LineEnd(t)][k]; }
  }

  /** Where copying stops: at the newline or at the end of the line buffer. */
  lemma {:induction false} LineCopied(t: Text, j: nat)
    requires t != [] && Ended(t) && j <= LineEnd(t) && j <= LINE_LEN
    requires t[j] == NL || j == LINE_LEN
    ensures j == LINE_LEN ==> Taken(t) == j && Line(t) == t[..j - 1]
    ensures j < LINE_LEN ==> Taken(t) == j + 1 && Line(t) == t[..j]
  {
    LineStops(t);
  }

  lemma {:induction false} BodyAtEnd(s: Sect)
    ensures Body([], s) == Found(s, [])
  {}

  lemma {:induction false} BodyCloses(t: Text, s: Sect)
    requires t != [] && Ended(t) && CLOSE in Line(t)
    ensures Body(t, s) == Found(s, t[Taken(t)..])
  {}

  lemma {:induction false} BodyDescends(t: Text, s: Sect)
    requires t != [] && Ended(t) && Opens(t) && Body(t, s).Found?
    ensures Section(t).Found?
    ensures Body(t, s) == Body(Section(t).left, s.(subs := [Section(t).sect] + s.subs))
  {
    hide Section;
  }

  lemma {:induction false} BodyTakesKey(t: Text, s: Sect)
    requires t != [] && Ended(t) && CLOSE !in Line(t) && OPEN !in Line(t) && Body(t, s).Found?
    ensures EQUALS in Line(t)
    ensures var l := Line(t);
            var e := IndexOf(l, EQUALS).value;
            Body(t, s) == Body(t[Taken(t)..], s.(keys := [Key(l[..e], l[e + 1..])] + s.keys))
  {
    hide Section, Line, Taken, IndexOf;
  }

  class Parser {
    const buffer: Text
    var i: nat
    const lineBuffer: array<byte>

    ghost predicate Valid()
      reads this, lineBuffer
    {
      lineBuffer.Length == LINE_LEN && i <= |buffer| && Ended(buffer[i..])
    }

    ghost function Left(): Text
      reads this
      requires i <= |buffer|
    {
      buffer[i..]
    }

    constructor (text: Text)
      requires Ended(text)
      ensures Valid() && buffer == text && i == 0 && fresh(lineBuffer)
    {
      buffer, i := text, 0;
      lineBuffer := new byte[LINE_LEN](_ => 0);
      new;
      assert buffer[0..] == buffer;
    }

    /** Copies characters up to the newline or the end of the line buffer. */
    method CopyChars() returns (j: nat)
      requires Valid() && i < |buffer|
      modifies lineBuffer
      ensures j <= LINE_LEN && j <= LineEnd(Left()) && (Left()[j] == NL || j == LINE_LEN)
      ensures forall k :: 0 <= k < j ==> lineBuffer[k] == Left()[k]
    {
      ghost var left := Left();
      LineStops(left);
      hide LineEnd, Ended;
      j := 0;
      while buffer[i + j] != NL && j < LINE_LEN
        invariant j <= LINE_LEN && j <= LineEnd(left)
        invariant forall k :: 0 <= k < j ==> lineBuffer[k] == left[k]
        decreases LINE_LEN - j
      {
        assert left[j] == buffer[i + j];
        lineBuffer[j] := buffer[i + j];
        j := j + 1;
      }
      assert left[j] == buffer[i + j];
    }

    /** Copies the line at the index into the line buffer and returns what it takes. */
    method CopyLine() returns (j: nat, line: Text)
      requires Valid() && i < |buffer|
      modifies lineBuffer
      ensures Valid() && j == Taken(Left()) && line == Line(Left())
      ensures lineBuffer[..j - 1] == line && lineBuffer[j - 1] == 0
    {
      hide LineEnd, Taken, Line, Ended;
      ghost var left := Left();
      j := CopyChars();
      LineCopied(left, j);
      if j == LINE_LEN {
        lineBuffer[j - 1] := 0;
      } else {
        lineBuffer[j] := 0;
        j := j + 1;
      }
      line := buffer[i..i + (j - 1)];
      SliceOfLeft(j - 1, line);
      assert |lineBuffer[..j - 1]| == |line|;
    }

    lemma {:induction false} SliceOfLeft(n: nat, line: Text)
      requires i + n <= |buffer| && line == buffer[i..i + n]
      ensures line == Left()[..n] && forall k :: 0 <= k < n ==> line[k] == Left()[k]
    {}

    /** Moves the index behind the line just copied. */
    method Skip(n: nat)
      requires Valid() && i < |buffer| && n == Taken(Left())
      modifies this`i
      ensures Valid() && i == old(i) + n && Left() == old(Left())[n..]
    {
      i := i + n;
      assert Left() == old(Left())[n..];
    }

    static lemma {:induction false} SectionStarts(t: Text)
      requires t != [] && Ended(t) && Section(t).Found?
      ensures Taken(t) <= |t| && Ended(t[Taken(t)..])
      ensures var c := IndexOf(Line(t), OPEN);
              && (c.Some? <==> OPEN in Line(t))
              && Section(t) == if c.None? then Body(t, Sect(DEFAULT_TITLE, [], []))
                               else Body(t[Taken(t)..], Sect(Line(t)[..c.value], [], []))
    {}

    /** Reads one section from the index on and leaves the index behind it. */
    method ParseSection() returns (sect: Sect)
      requires Valid() && i < |buffer| && Section(Left()).Found?
      modifies this`i, lineBuffer
      ensures Valid() && old(i) < i
      ensures Section(old(Left())) == Found(sect, Left())
      decreases |buffer| - i, 1
    {
      hide Section, Body, Line, Taken, IndexOf, Ended;
      ghost var all := Section(Left());
      SectionStarts(Left());
      var keys := new SetObj<Key>();
      var subs := new SetObj<Sect>();
      var title := DEFAULT_TITLE;
      var n, line := CopyLine();
      var c := IndexOf(line, OPEN);
      if c.Some? {
        title := line[..c.value];
        Skip(n);
      }
      var nextSection := false;
      while !nextSection && i < |buffer|
        invariant Valid() && fresh(keys) && fresh(subs) && keys.Valid() && subs.Valid()
        invariant old(i) < i || (old(i) == i < |buffer| && !nextSection && OPEN !in Line(Left()))
        invariant all == if nextSection then Found(Sect(title, keys.members, subs.members), Left())
                         else Body(Left(), Sect(title, keys.members, subs.members))
        decreases !nextSection, |buffer| - i
      {
        nextSection := ParseLine(keys, subs, title);
      }
      BodyAtEnd(Sect(title, keys.members, subs.members));
      sect := Sect(title, keys.members, subs.members);
    }

    /** One turn of the parsing loop: the line closes the section, opens a sub-section or is
        a key. */
    method ParseLine(keys: SetObj<Key>, subs: SetObj<Sect>, ghost title: Text) returns (closed: bool)
      requires Valid() && i < |buffer| && keys.Valid() && subs.Valid()
      requires Body(Left(), Sect(title, keys.members, subs.members)).Found?
      modifies this`i, lineBuffer, keys, subs
      ensures Valid() && old(i) < i && keys.Valid() && subs.Valid()
      ensures old(Body(Left(), Sect(title, keys.members, subs.members)))
           == if closed then Found(Sect(title, keys.members, subs.members), Left())
              else Body(Left(), Sect(title, keys.members, subs.members))
      decreases |buffer| - i, if Opens(Left()) then 2 else 0
    {
      hide Section, Body, Line, Taken, IndexOf, Ended, KeyOf;
      ghost var s := Sect(title, keys.members, subs.members);
      var n, line := CopyLine();
      closed := IndexOf(line, CLOSE).Some?;
      if closed {
        BodyCloses(Left(), s);
        Skip(n);
      } else if IndexOf(line, OPEN).Some? {
        BodyDescends(Left(), s);
        var sub := ParseSection();
        subs.Put(sub);
      } else {
        BodyTakesKey(Left(), s);
        Skip(n);
        var e := IndexOf(line, EQUALS).value;
        keys.Put(Key(line[..e], line[e + 1..]));
      }
    }

    /** Reads all sections of the text. */
    method New() returns (sects: SetObj<Sect>)
      requires Valid() && i == 0 && File(buffer, []).Some?
      modifies this`i, lineBuffer
      ensures Valid() && i == |buffer| && sects.Valid()
      ensures File(buffer, []) == Some(sects.members)
    {
      sects := new SetObj<Sect>();
      assert buffer[0..] == buffer;
      while i < |buffer|
        invariant Valid() && sects.Valid() && fresh(sects)
        invariant File(buffer, []) == File(Left(), sects.members)
        decreases |buffer| - i
      {
        var sect := ParseSection();
        sects.Put(sect);
      }
      assert Left() == [];
    }
  }
}
