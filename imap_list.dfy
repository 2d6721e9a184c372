/** The IMAP `LIST` response (RFC 9051 section 7.3.1): one line per
    mailbox with its attributes, its hierarchy delimiter and its name. */
module ImapList {
  import opened Text
  import opened Wrappers
  import opened FlagSet
  import opened ImapProto

  /** The mailbox attributes, in declaration order (RFC 9051 section 7.3.1
      and the special-use attributes of RFC 6154). */
  const Decl: seq<string> := [
    "\\NonExistent", "\\Noinferiors", "\\Noselect", "\\HasChildren", "\\HasNoChildren",
    "\\Marked", "\\Unmarked", "\\Subscribed", "\\Remote",
    "\\All", "\\Archive", "\\Drafts", "\\Flagged", "\\Junk", "\\Sent", "\\Trash"]

  const NON_EXISTENT: nat := 0
  const NOINFERIORS: nat := 1
  const NOSELECT: nat := 2
  const DRAFTS: nat := 11

  lemma DeclDistinct()
    ensures Distinct(Decl)
    ensures forall i :: 0 <= i < |Decl| ==> ' ' !in Decl[i]
  {
  }

  /** `Display for Attributes`: the names held, as a parenthesized list. */
  function AttributesText(f: set<nat>): string
  {
    ParenList(Names(Decl, f))
  }

  /** Reading the attribute words between the parentheses back gives the
      set, the empty set included. */
  lemma AttributesRoundTrip(f: set<nat>)
    requires Valid(Decl, f)
    ensures var s := AttributesText(f);
      |s| >= 2 && FromNames(Decl, Split(s[1..|s| - 1], ' ')) == f
  {
    DeclDistinct();
    var names := Names(Decl, f);
    var s := AttributesText(f);
    if names == [] {
      assert s == "()";
      assert Split(s[1..|s| - 1], ' ') == [""];
      forall i: nat | i < |Decl|
        ensures i !in f
      {
        NamesMembership(Decl, f, i);
      }
    } else {
      forall k | 0 <= k < |names|
        ensures ' ' !in names[k]
      {
        assert names[k] in names;
        NamesDeclared(Decl, f, names[k]);
      }
      ParenListSplit(names);
      FromNamesNames(Decl, f);
    }
  }

  /** `ListItem`: the mailbox name, its attributes and its delimiter. */
  datatype ListItem = ListItem(name: string, attributes: set<nat>, delimiter: Option<char>)

  /** `ListItem::new`: no hierarchy delimiter. */
  function NewListItem(name: string, attributes: set<nat>): (item: ListItem)
    ensures item.name == name && item.attributes == attributes && item.delimiter == None
  {
    ListItem(name, attributes, None)
  }

  /** `DelimiterDisplay`: `NIL`, or the delimiter in double quotes. */
  function DelimiterText(d: Option<char>): (s: string)
    ensures d.None? ==> s == "NIL"
    ensures d.Some? ==> s == ['"', d.value, '"']
  {
    match d
    case None => "NIL"
    case Some(c) => "\"" + [c] + "\""
  }

  /** `* LIST <attributes> <delimiter> "<name>"` and CRLF. */
  function ListItemText(item: ListItem): string
  {
    "* LIST " + AttributesText(item.attributes) + " " + DelimiterText(item.delimiter)
      + " \"" + item.name + "\"\r\n"
  }

  /** The line of each item, in order. */
  function Lines(items: seq<ListItem>): (ls: seq<string>)
    ensures |ls| == |items| && forall i :: 0 <= i < |items| ==> ls[i] == ListItemText(items[i])
  {
    seq(|items|, i requires 0 <= i < |items| => ListItemText(items[i]))
  }

  /** `list::Response`: the lines of its items, one after another. */
  function ListText(items: seq<ListItem>): string
  {
    Concat(Lines(items))
  }

  /** `Display for list::Response`: each item's line in turn. */
  method FmtList(items: seq<ListItem>) returns (out: string)
    ensures out == ListText(items)
  {
    out := "";
    var i := 0;
    while i < |items|
      invariant 0 <= i <= |items|
      invariant out == ListText(items[..i])
    {
      ListTextSnoc(items, i);
      out := out + ListItemText(items[i]);
      i := i + 1;
    }
    assert items[..i] == items;
  }

  lemma ListTextSnoc(items: seq<ListItem>, i: nat)
    requires i < |items|
    ensures ListText(items[..i + 1]) == ListText(items[..i]) + ListItemText(items[i])
  {
    assert items[..i + 1] == items[..i] + [items[i]];
    ListTextAppend(items[..i], [items[i]]);
    assert Concat(Lines([items[i]])) == ListItemText(items[i]) by {
      assert Lines([items[i]])[..0] == [];
    }
  }

  /** The response for two lists of items is the response for the first
      followed by the one for the second. */
  lemma ListTextAppend(a: seq<ListItem>, b: seq<ListItem>)
    ensures ListText(a + b) == ListText(a) + ListText(b)
  {
    assert Lines(a + b) == Lines(a) + Lines(b);
    ConcatAppend(Lines(a), Lines(b));
  }

  /** Reading a LIST line back: the attributes run to the first `)`, then
      the delimiter, then the name between the next quote and the quote
      before the CRLF. */
  function ReadListItem(line: string): Option<ListItem>
  {
    if |line| < 9 || line[..7] != "* LIST " || line[|line| - 2..] != "\r\n" then None
    else
      var (attrs, after) := SplitOnceOr(line[7..|line| - 2], ')');
      var d := ReadDelimiter(after);
      if |attrs| == 0 || attrs[0] != '(' || d.None? then None
      else Some(ListItem(d.value.1, FromNames(Decl, Split(attrs[1..], ' ')), d.value.0))
  }

  /** ` NIL "<name>"` or ` "<c>" "<name>"`: the delimiter and the name. */
  function ReadDelimiter(s: string): Option<(Option<char>, string)>
  {
    if |s| >= 7 && s[..6] == " NIL \"" && s[|s| - 1] == '"' then Some((None, s[6..|s| - 1]))
    else if |s| >= 7 && s[..2] == " \"" && s[3..6] == "\" \"" && s[|s| - 1] == '"' then Some((Some(s[2]), s[6..|s| - 1]))
    else None
  }

  /** Whatever the name and the delimiter, a LIST line reads back as the
      item it was printed from. */
  lemma ListItemRoundTrip(item: ListItem)
    requires Valid(Decl, item.attributes)
    ensures ReadListItem(ListItemText(item)) == Some(item)
  {
    var a := AttributesText(item.attributes);
    var tail := " " + DelimiterText(item.delimiter) + " \"" + item.name + "\"";
    AttributesShape(item.attributes);
    AttributesRoundTrip(item.attributes);
    var inner := a[..|a| - 1];
    assert a == inner + [')'];
    assert inner[1..] == a[1..|a| - 1];
    ItemLineParts(item, inner, tail);
    SplitOnceOrJoined(inner, ')', tail);
    DelimiterRoundTrip(item.delimiter, item.name);
    ReadLineParts("* LIST " + (inner + [')'] + tail) + "\r\n", inner + [')'] + tail);
  }

  lemma ItemLineParts(item: ListItem, inner: string, tail: string)
    requires AttributesText(item.attributes) == inner + [')']
    requires tail == " " + DelimiterText(item.delimiter) + " \"" + item.name + "\""
    ensures ListItemText(item) == "* LIST " + (inner + [')'] + tail) + "\r\n"
  {
  }

  lemma ReadLineParts(line: string, body: string)
    requires line == "* LIST " + body + "\r\n"
    ensures |line| >= 9 && line[..7] == "* LIST " && line[|line| - 2..] == "\r\n" && line[7..|line| - 2] == body
  {
  }

  lemma DelimiterRoundTrip(d: Option<char>, name: string)
    ensures ReadDelimiter(" " + DelimiterText(d) + " \"" + name + "\"") == Some((d, name))
  {
    var s := " " + DelimiterText(d) + " \"" + name + "\"";
    if d.None? {
      assert s == " NIL \"" + name + "\"";
    } else {
      assert s == " \"" + [d.value] + "\" \"" + name + "\"";
      assert s[..2] == " \"" && s[2] == d.value && s[3..6] == "\" \"";
      assert s[6..|s| - 1] == name;
    }
  }

  /** The attributes are `(`, text without `)`, then `)`. */
  lemma AttributesShape(f: set<nat>)
    requires Valid(Decl, f)
    ensures var a := AttributesText(f);
      |a| >= 2 && a[0] == '(' && a[|a| - 1] == ')' && ')' !in a[..|a| - 1]
  {
    var names := Names(Decl, f);
    NoParenNames(f);
    JoinWithout(names, ')');
    Parenthesized(Join(names, " "));
  }

  lemma NoParenNames(f: set<nat>)
    requires Valid(Decl, f)
    ensures var names := Names(Decl, f); forall k :: 0 <= k < |names| ==> ')' !in names[k]
  {
    var names := Names(Decl, f);
    DeclNoParen();
    forall k | 0 <= k < |names|
      ensures ')' !in names[k]
    {
      assert names[k] in names;
      NamesDeclared(Decl, f, names[k]);
    }
  }

  lemma DeclNoParen()
    ensures forall i :: 0 <= i < |Decl| ==> ')' !in Decl[i]
  {
  }

  lemma Parenthesized(j: string)
    requires ')' !in j
    ensures var a := "(" + j + ")"; |a| >= 2 && a[0] == '(' && a[|a| - 1] == ')' && ')' !in a[..|a| - 1]
  {
    var a := "(" + j + ")";
    assert a[..|a| - 1] == "(" + j;
  }

  /** Every item line starts with `* LIST ` and ends with CRLF. */
  lemma ListItemLine(item: ListItem)
    ensures var s := ListItemText(item);
      |s| >= 9 && s[..7] == "* LIST " && s[|s| - 2..] == "\r\n"
  {
  }

  /** `\Noselect` and `\Noinferiors` print in declaration order. */
  lemma NoselectNoinferiorsText()
    ensures AttributesText({NOSELECT, NOINFERIORS}) == ParenList(["\\Noinferiors", "\\Noselect"])
  {
    var f := {NOSELECT, NOINFERIORS};
    assert NamesBelow(Decl, f, 1) == [];
    assert NamesBelow(Decl, f, 2) == ["\\Noinferiors"];
    assert NamesBelow(Decl, f, 3) == ["\\Noinferiors", "\\Noselect"];
    NamesAbove(f, 3);
  }

  lemma DraftsNames()
    ensures Names(Decl, {DRAFTS}) == ["\\Drafts"]
  {
    var f := {DRAFTS};
    assert NamesBelow(Decl, f, 0) == [];
    assert NamesBelow(Decl, f, 11) == [] by {
      NamesAboveFrom({}, 0, 11);
      NamesBelowSame(f, {}, 11);
    }
    assert NamesBelow(Decl, f, 12) == ["\\Drafts"];
    NamesAbove(f, 12);
  }

  lemma {:induction false} NamesBelowSame(f: set<nat>, g: set<nat>, m: nat)
    requires m <= |Decl|
    requires forall i :: i < m ==> (i in f <==> i in g)
    ensures NamesBelow(Decl, f, m) == NamesBelow(Decl, g, m)
  {
    if m > 0 {
      NamesBelowSame(f, g, m - 1);
    }
  }

  lemma DraftsAttributes()
    ensures AttributesText({DRAFTS}) == "(\\Drafts)"
  {
    DraftsNames();
  }

  /** A mailbox with the `\Drafts` attribute and delimiter `/`. */
  lemma DraftsItemText()
    ensures ListItemText(ListItem("Drafts", {DRAFTS}, Some('/'))) == "* LIST (\\Drafts) \"/\" \"Drafts\"\r\n"
  {
    DraftsAttributes();
    assert DelimiterText(Some('/')) == "\"/\"";
  }

  /** Set flags all below `n`: the names stop growing at `n`. */
  lemma {:induction false} NamesAbove(f: set<nat>, n: nat)
    requires n <= |Decl|
    requires forall i :: i in f ==> i < n
    ensures Names(Decl, f) == NamesBelow(Decl, f, n)
  {
    NamesAboveFrom(f, n, |Decl|);
  }

  lemma {:induction false} NamesAboveFrom(f: set<nat>, n: nat, m: nat)
    requires n <= m <= |Decl|
    requires forall i :: i in f ==> i < n
    ensures NamesBelow(Decl, f, m) == NamesBelow(Decl, f, n)
    decreases m
  {
    if m > n {
      NamesAboveFrom(f, n, m - 1);
    }
  }
}
