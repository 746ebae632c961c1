/**
 * The parsed page as the script sees it through BeautifulSoup: a tree whose
 * leaves are text and whose interior nodes are tags, together with the few
 * searches the script runs over it (`find_all`, `find`, `get_text`).
 */
module Document {
  import opened Wrappers

  /**
   * A node of the parsed page. `attrs` holds the single-valued attributes
   * (`id`, `href`, ...); `classes` is the `class` attribute as the parser
   * splits it into a list (an element without one has the empty list).
   */
  datatype Node =
    | Text(text: string)
    | Element(name: string, attrs: map<string, string>, classes: seq<string>, children: seq<Node>)

  function Children(n: Node): seq<Node>
  {
    if n.Element? then n.children else []
  }

  /**
   * The arguments of a `find`/`find_all` call: an optional tag name, an
   * optional required `id`, an optional class the element's class list must
   * contain (`class_=`), and an optional attribute that must be present
   * (`attr=True`).
   */
  datatype Query = Query(name: Option<string>, id: Option<string>, cls: Option<string>, attr: Option<string>)

  predicate Matches(q: Query, n: Node)
  {
    && n.Element?
    && (q.name.Some? ==> n.name == q.name.value)
    && (q.id.Some? ==> "id" in n.attrs && n.attrs["id"] == q.id.value)
    && (q.cls.Some? ==> q.cls.value in n.classes)
    && (q.attr.Some? ==> q.attr.value in n.attrs)
  }

  /** All nodes strictly below `n`, in document (pre-)order. */
  function Descendants(n: Node): seq<Node>
    decreases n
  {
    match n
    case Text(_) => []
    case Element(_, _, _, cs) => DescendantsOf(cs)
  }

  function DescendantsOf(cs: seq<Node>): seq<Node>
    decreases cs
  {
    if cs == [] then [] else [cs[0]] + Descendants(cs[0]) + DescendantsOf(cs[1..])
  }

  /** The nodes of `s` that match `q`, in their order in `s`. */
  function Select(q: Query, s: seq<Node>): (r: seq<Node>)
    ensures |r| <= |s|
    decreases |s|
  {
    if s == [] then []
    else (if Matches(q, s[0]) then [s[0]] else []) + Select(q, s[1..])
  }

  function FirstOf(s: seq<Node>): Option<Node>
  {
    if s == [] then None else Some(s[0])
  }

  /** `n.find_all(...)`: the matching nodes below `n`, in document order. */
  function FindAll(n: Node, q: Query): seq<Node>
  {
    Select(q, Descendants(n))
  }

  /**
   * `n.find(...)`: a depth-first search below `n` that stops at the first
   * match.
   */
  function Find(n: Node, q: Query): (r: Option<Node>)
    ensures r.Some? ==> Matches(q, r.value)
    decreases n
  {
    match n
    case Text(_) => None
    case Element(_, _, _, cs) => FindIn(cs, q)
  }

  function FindIn(cs: seq<Node>, q: Query): (r: Option<Node>)
    ensures r.Some? ==> Matches(q, r.value)
    decreases cs
  {
    if cs == [] then None
    else if Matches(q, cs[0]) then Some(cs[0])
    else
      match Find(cs[0], q)
      case Some(x) => Some(x)
      case None => FindIn(cs[1..], q)
  }

  /** `n.get_text()`: the text of every text node below `n`, joined. */
  function GetText(n: Node): string
    decreases n
  {
    match n
    case Text(s) => s
    case Element(_, _, _, cs) => GetTextOf(cs)
  }

  function GetTextOf(cs: seq<Node>): string
    decreases cs
  {
    if cs == [] then "" else GetText(cs[0]) + GetTextOf(cs[1..])
  }

  /** The texts of the text nodes of `s`, joined in order. */
  function TextLeaves(s: seq<Node>): string
    decreases |s|
  {
    if s == [] then "" else (if s[0].Text? then s[0].text else "") + TextLeaves(s[1..])
  }

  lemma {:induction false} SelectConcat(q: Query, a: seq<Node>, b: seq<Node>)
    ensures Select(q, a + b) == Select(q, a) + Select(q, b)
    decreases |a|
  {
    if a == [] {
      assert a + b == b;
    } else {
      assert (a + b)[0] == a[0];
      assert (a + b)[1..] == a[1..] + b;
      SelectConcat(q, a[1..], b);
    }
  }

  /** `Select` keeps exactly the matching nodes. */
  lemma {:induction false} SelectMembers(q: Query, s: seq<Node>)
    ensures forall x | x in Select(q, s) :: x in s && Matches(q, x)
    ensures forall x | x in s && Matches(q, x) :: x in Select(q, s)
    decreases |s|
  {
    if s != [] {
      SelectMembers(q, s[1..]);
      assert forall x | x in s :: x == s[0] || x in s[1..];
    }
  }

  /** `find_all` lists every matching node below `n` and nothing else. */
  lemma FindAllMembers(n: Node, q: Query, x: Node)
    ensures x in FindAll(n, q) <==> x in Descendants(n) && Matches(q, x)
  {
    SelectMembers(q, Descendants(n));
  }

  /** `find` gives exactly the first node `find_all` would list, or nothing when that list is empty. */
  lemma {:induction false} FindIsFirstOfFindAll(n: Node, q: Query)
    ensures Find(n, q) == FirstOf(FindAll(n, q))
    decreases n
  {
    if n.Element? {
      FindInIsFirst(n.children, q);
    }
  }

  lemma {:induction false} FindInIsFirst(cs: seq<Node>, q: Query)
    ensures FindIn(cs, q) == FirstOf(Select(q, DescendantsOf(cs)))
    decreases cs
  {
    if cs != [] {
      var rest := Descendants(cs[0]) + DescendantsOf(cs[1..]);
      assert DescendantsOf(cs) == [cs[0]] + rest;
      SelectConcat(q, [cs[0]], rest);
      SelectConcat(q, Descendants(cs[0]), DescendantsOf(cs[1..]));
      if !Matches(q, cs[0]) {
        assert Select(q, [cs[0]]) == [];
        FindIsFirstOfFindAll(cs[0], q);
        FindInIsFirst(cs[1..], q);
      }
    }
  }

  lemma {:induction false} TextLeavesConcat(a: seq<Node>, b: seq<Node>)
    ensures TextLeaves(a + b) == TextLeaves(a) + TextLeaves(b)
    decreases |a|
  {
    if a == [] {
      assert a + b == b;
    } else {
      assert (a + b)[0] == a[0];
      assert (a + b)[1..] == a[1..] + b;
      TextLeavesConcat(a[1..], b);
    }
  }

  /**
   * `get_text()` of an element is the text of the text nodes below it, taken
   * in document order: nothing is dropped, repeated or reordered.
   */
  lemma {:induction false} GetTextIsLeafText(n: Node)
    ensures GetText(n) == if n.Text? then n.text else TextLeaves(Descendants(n))
    decreases n
  {
    if n.Element? {
      GetTextOfIsLeafText(n.children);
    }
  }

  lemma {:induction false} GetTextOfIsLeafText(cs: seq<Node>)
    ensures GetTextOf(cs) == TextLeaves(DescendantsOf(cs))
    decreases cs
  {
    if cs != [] {
      var c := cs[0];
      GetTextIsLeafText(c);
      GetTextOfIsLeafText(cs[1..]);
      assert DescendantsOf(cs) == [c] + (Descendants(c) + DescendantsOf(cs[1..]));
      TextLeavesConcat([c], Descendants(c) + DescendantsOf(cs[1..]));
      TextLeavesConcat(Descendants(c), DescendantsOf(cs[1..]));
      assert TextLeaves([c]) == if c.Text? then c.text else "";
      if c.Text? {
        assert Descendants(c) == [];
        assert TextLeaves([]) == "";
      }
    }
  }
}
