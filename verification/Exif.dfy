/** assets/exif.js: which toggle targets are accepted, the mounting of the click listener on
    documents, and the click handler itself. */
module Exif {
  import opened Wrappers
  import opened Decimals

  // ----- exifTarget -----

  const MAX_ID: nat := 9007199254740991

  /** `value` is None when it is not a string. */
  function ExifTarget(value: Option<string>): Option<string> {
    if value.None? then None
    else
      var v := value.value;
      if |v| < 5 || v[0] !in {'e', '3'} || v[1..4] != "xif" then None
      else
        var digits := v[4..];
        if |digits| > 16 || digits[0] == '0' || !AllDigits(digits) then None
        else if Value(digits) <= MAX_ID then value else None
  }

  lemma {:induction false} Pow10Order(a: nat, b: nat)
    ensures Pow10(a) < Pow10(b) <==> a < b
    decreases a
  {
    if a > 0 && b > 0 { Pow10Order(a - 1, b - 1); }
  }

  /** Sixteen digits are enough for every accepted number. */
  lemma ShortNumeral(n: nat)
    requires 0 < n <= MAX_ID
    ensures |Show(n)| <= 16
  {
    ShowIsCanonical(n);
    LengthOfValue(Show(n));
    assert Pow10(16) == 10000 * 10000 * 10000 * 10000 by { Pow10Sixteen(); }
    Pow10Order(|Show(n)| - 1, 16);
  }

  lemma Pow10Sixteen()
    ensures Pow10(16) == 10000 * 10000 * 10000 * 10000
  {
    Pow10Step(0); Pow10Step(4); Pow10Step(8); Pow10Step(12);
  }

  lemma Pow10Step(n: nat)
    ensures Pow10(n + 4) == 10000 * Pow10(n)
  {
    assert Pow10(n + 4) == 10 * Pow10(n + 3);
    assert Pow10(n + 3) == 10 * Pow10(n + 2);
    assert Pow10(n + 2) == 10 * Pow10(n + 1);
  }

  /** A target is accepted exactly when it is `exif` or `3xif` followed by the canonical decimal
      of a number from 1 to 2^53 - 1; what is returned is the value itself. */
  lemma TargetIff(value: Option<string>, id: string)
    ensures ExifTarget(value) == Some(id) <==>
      value == Some(id) && exists n: nat :: 0 < n <= MAX_ID && (id == "exif" + Show(n) || id == "3xif" + Show(n))
  {
    hide Show, Value;
    if ExifTarget(value) == Some(id) {
      var digits := id[4..];
      CanonicalIsShown(digits);
      assert id == [id[0]] + id[1..4] + digits;
      assert Show(Value(digits)) == digits;
    }
    if value == Some(id) {
      if n: nat :| 0 < n <= MAX_ID && (id == "exif" + Show(n) || id == "3xif" + Show(n)) {
        TargetOf(id[0], n);
        assert id == [id[0]] + ("xif" + Show(n));
      }
    }
  }

  lemma TargetOf(kind: char, n: nat)
    requires 0 < n <= MAX_ID && kind in {'e', '3'}
    ensures ExifTarget(Some([kind] + ("xif" + Show(n)))) == Some([kind] + ("xif" + Show(n)))
  {
    hide Show, Value;
    var id := [kind] + ("xif" + Show(n));
    ShowIsCanonical(n);
    ShortNumeral(n);
    assert id[4..] == Show(n) && id[1..4] == "xif";
  }

  /** An accepted target is safe inside the quoted attribute selector. */
  lemma TargetIsPlain(value: Option<string>)
    ensures ExifTarget(value).Some? ==>
      forall i | 0 <= i < |value.value| :: IsDigit(value.value[i]) || value.value[i] in {'e', 'x', 'i', 'f'}
  {
    if ExifTarget(value).Some? {
      var v := value.value;
      forall i | 0 <= i < |v| ensures IsDigit(v[i]) || v[i] in {'e', 'x', 'i', 'f'} {
        if 0 < i < 4 { assert v[1..4][i - 1] == "xif"[i - 1]; }
        if i >= 4 { assert v[4..][i - 4] == v[i]; }
      }
    }
  }

  // ----- Mounting -----

  type Id = nat

  /** What `mountExif` returns: its document and its own click listener. */
  datatype Handle<D> = Handle(doc: D, click: Id)

  /** The WeakMap of current mounts, the click listeners of each document that can have any, and
      the next fresh listener. */
  datatype State<D> = State(mounts: map<D, Id>, listeners: map<D, set<Id>>, next: Id)

  function Destroy<D(==)>(s: State<D>, h: Handle<D>): State<D> {
    State(if h.doc in s.mounts && s.mounts[h.doc] == h.click then s.mounts - {h.doc} else s.mounts,
          if h.doc in s.listeners then s.listeners[h.doc := s.listeners[h.doc] - {h.click}] else s.listeners,
          s.next)
  }

  /** A document without addEventListener is refused. */
  function Mount<D(==)>(s: State<D>, doc: D): (State<D>, Option<Handle<D>>) {
    if doc !in s.listeners then (s, None)
    else
      var t := if doc in s.mounts then Destroy(s, Handle(doc, s.mounts[doc])) else s;
      (State(t.mounts[doc := t.next], t.listeners[doc := t.listeners[doc] + {t.next}], t.next + 1),
       Some(Handle(doc, t.next)))
  }

  datatype Event<D> = DoMount(doc: D) | DoDestroy(handle: Handle<D>)

  function Apply<D(==)>(s: State<D>, e: Event<D>): State<D> {
    match e
    case DoMount(doc) => Mount(s, doc).0
    case DoDestroy(h) => Destroy(s, h)
  }

  function Run<D(==)>(s: State<D>, es: seq<Event<D>>): State<D> {
    if es == [] then s else Apply(Run(s, es[..|es| - 1]), es[|es| - 1])
  }

  /** Each document has exactly the listener of its current mount, or none. */
  ghost predicate OneListener<D>(s: State<D>) {
    && s.mounts.Keys <= s.listeners.Keys
    && (forall d | d in s.listeners :: s.listeners[d] == if d in s.mounts then {s.mounts[d]} else {})
    && (forall d | d in s.mounts :: s.mounts[d] < s.next)
  }

  lemma ApplyKeeps<D>(s: State<D>, e: Event<D>)
    requires OneListener(s)
    ensures OneListener(Apply(s, e))
    ensures Apply(s, e).listeners.Keys == s.listeners.Keys
  {
  }

  /** In any run of mounts, and of destroys of any old or new handle, on any documents. */
  lemma {:induction false} RunKeeps<D>(s: State<D>, es: seq<Event<D>>)
    requires OneListener(s)
    ensures OneListener(Run(s, es))
    ensures Run(s, es).listeners.Keys == s.listeners.Keys
  {
    hide OneListener, Apply;
    if es != [] {
      RunKeeps(s, es[..|es| - 1]);
      ApplyKeeps(Run(s, es[..|es| - 1]), es[|es| - 1]);
    }
  }

  /** A mount gives a document that can have listeners a new one in place of any it had, under the
      handle it returns, and changes no other document; any other document is refused. */
  lemma MountMounts<D>(s: State<D>, es: seq<Event<D>>, doc: D)
    requires OneListener(s)
    ensures var t := Run(s, es);
      var (u, h) := Mount(t, doc);
      if doc !in t.listeners then u == t && h.None?
      else
        && h.Some? && h.value.doc == doc && (forall d | d in t.mounts :: t.mounts[d] != h.value.click)
        && u.mounts == t.mounts[doc := h.value.click] && u.listeners == t.listeners[doc := {h.value.click}]
  {
    RunKeeps(s, es);
    var t := Run(s, es);
    hide Run;
    if doc in t.listeners {
      var (u, h) := Mount(t, doc);
      assert u.listeners[doc] == {h.value.click};
    }
  }

  /** A destroy changes nothing unless its handle is the document's current mount; then it leaves
      the document without mount and listener, and every other document as it was. */
  lemma StaleDestroy<D>(s: State<D>, es: seq<Event<D>>, h: Handle<D>)
    requires OneListener(s)
    ensures var t := Run(s, es);
      if h.doc in t.mounts && t.mounts[h.doc] == h.click
      then h.doc !in Destroy(t, h).mounts && Destroy(t, h).listeners == t.listeners[h.doc := {}]
      else Destroy(t, h) == t
  {
    RunKeeps(s, es);
    var t := Run(s, es);
    if h.doc in t.mounts && t.mounts[h.doc] == h.click {
      assert {h.click} - {h.click} == {};
    } else if h.doc in t.listeners {
      assert h.click !in t.listeners[h.doc];
      assert t.listeners[h.doc] - {h.click} == t.listeners[h.doc];
    }
  }

  // ----- The click handler -----

  /** The table a click resolves to, with its expansion attribute; `aria` is the link's. */
  datatype Toggle = Toggle(expanded: Option<string>, aria: Option<string>)

  /** The event, and everything the handler looks up for it. */
  datatype Click = Click(prevented: bool, cancelable: bool, button: int, meta: bool, ctrl: bool, shift: bool, alt: bool, linkInDocument: bool,
                         target: Option<string>, inBlockquote: bool, tableId: Option<string>)

  predicate Acts(c: Click) {
    && !c.prevented && c.button == 0 && !(c.meta || c.ctrl || c.shift || c.alt) && c.linkInDocument
    && ExifTarget(c.target).Some? && c.inBlockquote
    && c.tableId == ExifTarget(c.target)
  }

  /** One listener. preventDefault takes effect on a cancelable event only. */
  function Handler(c: Click, t: Toggle): (Click, Toggle) {
    if !Acts(c) then (c, t)
    else
      var expanded := if t.expanded != Some("true") then "true" else "false";
      (c.(prevented := c.cancelable), Toggle(Some(expanded), Some(expanded)))
  }

  /** Exactly when the handler changes anything: a plain left click, not yet handled, on a toggle of
      the document whose target is `exif` or `3xif` and a number, in a blockquote that has the table
      of that very name. Then the table is expanded if it was not, and collapsed if it was. */
  lemma HandlerIff(c: Click, t: Toggle)
    ensures Handler(c, t) != (c, t) <==>
      && !c.prevented && c.button == 0 && !c.meta && !c.ctrl && !c.shift && !c.alt && c.linkInDocument && c.inBlockquote
      && c.tableId == c.target && c.target.Some?
      && exists n: nat :: 0 < n <= MAX_ID && (c.target.value == "exif" + Show(n) || c.target.value == "3xif" + Show(n))
    ensures Handler(c, t) != (c, t) ==> var (after, u) := Handler(c, t);
      && u.expanded == u.aria == Some(if t.expanded == Some("true") then "false" else "true")
      && after == c.(prevented := c.cancelable)
  {
    if c.target.Some? { TargetIff(c.target, c.target.value); }
    assert ExifTarget(c.target).Some? ==> ExifTarget(c.target) == c.target;
    hide Show;
    assert "true" != "false" by { assert |"true"| != |"false"|; }
  }

  /** A document with `listeners` listeners runs each of them. */
  function Dispatch(c: Click, t: Toggle, listeners: nat): (Click, Toggle)
    decreases listeners
  {
    if listeners == 0 then (c, t)
    else var (c', t') := Handler(c, t); Dispatch(c', t', listeners - 1)
  }

  lemma {:induction false} SettledClick(c: Click, t: Toggle, listeners: nat)
    requires !Acts(c)
    ensures Dispatch(c, t, listeners) == (c, t)
  {
    if listeners != 0 { SettledClick(c, t, listeners - 1); }
  }

  /** However many listeners a document had, a cancelable click acts at most once; one that is
      not acts once for each listener. */
  lemma {:induction false} ClickActsOnce(c: Click, t: Toggle, listeners: nat)
    ensures c.cancelable ==> Dispatch(c, t, listeners) == if listeners == 0 then (c, t) else Handler(c, t)
    ensures !c.cancelable ==> Dispatch(c, t, listeners) == (c, Clicks(c, t, listeners))
    decreases listeners
  {
    if listeners != 0 {
      var (c', t') := Handler(c, t);
      if c.cancelable {
        SettledClick(c', t', listeners - 1);
      } else {
        assert c' == c by { hide Acts; if Acts(c) { NotPrevented(c); } }
        ClickActsOnce(c, t', listeners - 1);
        ClicksFromFirst(c, t, listeners);
      }
    }
  }

  lemma NotPrevented(c: Click)
    requires Acts(c)
    ensures !c.prevented
  {
  }

  lemma {:induction false} ClicksFromFirst(c: Click, t: Toggle, n: nat)
    requires n > 0
    ensures Clicks(c, t, n) == Clicks(c, Handler(c, t).1, n - 1)
  {
    hide Handler;
    if n > 1 { ClicksFromFirst(c, t, n - 1); } else { assert Clicks(c, t, 0) == t; }
  }

  /** After any run a click acts on a document exactly when it is mounted, and then once, whether
      it is cancelable or not. */
  lemma ClickNeedsMount<D>(s: State<D>, es: seq<Event<D>>, doc: D, c: Click, t: Toggle)
    requires OneListener(s) && doc in s.listeners && Acts(c)
    ensures var u := Run(s, es);
      && doc in u.listeners
      && Dispatch(c, t, |u.listeners[doc]|) == (if doc in u.mounts then Handler(c, t) else (c, t))
      && Handler(c, t).1.expanded != t.expanded
  {
    RunKeeps(s, es);
    var n := |Run(s, es).listeners[doc]|;
    ClickActsOnce(c, t, n);
    assert "true" != "false" by { assert |"true"| != |"false"|; }
    hide Run, Acts;
    assert n <= 1;
    if !c.cancelable {
      assert Clicks(c, t, 0) == t;
      assert n == 1 ==> Clicks(c, t, 1) == Handler(c, t).1;
    }
  }

  /** `n` clicks that act. */
  function Clicks(c: Click, t: Toggle, n: nat): Toggle {
    if n == 0 then t else Handler(c, Clicks(c, t, n - 1)).1
  }

  /** The table and the link always agree, and the state is the parity of the clicks. */
  lemma {:induction false} ClickParity(c: Click, t: Toggle, n: nat)
    requires Acts(c) && n > 0
    ensures var u := Clicks(c, t, n);
      u.aria == u.expanded && u.expanded in {Some("true"), Some("false")} &&
      (u.expanded == Some("true") <==> ((t.expanded == Some("true")) == (n % 2 == 0)))
  {
    hide Acts;
    assert "true" != "false" by { assert |"true"| != |"false"|; }
    if n > 1 { ClickParity(c, t, n - 1); } else { assert Clicks(c, t, 0) == t; }
  }

  // ----- Documents and the registry as objects -----

  class Document {
    var listeners: set<Id>
    const hasEvents: bool

    constructor (hasEvents: bool)
      ensures listeners == {} && this.hasEvents == hasEvents
    {
      this.listeners := {};
      this.hasEvents := hasEvents;
    }
  }

  /** The module's `mounts` map, over the documents in play. */
  class Registry {
    var mounts: map<Document, Id>
    var next: Id
    ghost const docs: set<Document>

    ghost function Abstract(): State<Document>
      reads this, docs
    {
      State(mounts, map d | d in docs && d.hasEvents :: d.listeners, next)
    }

    constructor (ghost docs: set<Document>)
      requires forall d | d in docs :: d.listeners == {}
      ensures this.docs == docs && OneListener(Abstract())
    {
      mounts, next := map[], 0;
      this.docs := docs;
    }

    method DestroyHandle(h: Handle<Document>)
      requires h.doc in docs && h.doc.hasEvents
      modifies this`mounts, h.doc
      ensures Abstract() == Destroy(old(Abstract()), h)
    {
      h.doc.listeners := h.doc.listeners - {h.click};
      if h.doc in mounts && mounts[h.doc] == h.click { mounts := mounts - {h.doc}; }
    }

    /** addEventListener and the entry in the map. */
    method Listen(doc: Document)
      requires doc in docs && doc.hasEvents
      modifies this`mounts, this`next, doc
      ensures var s := old(Abstract());
        Abstract() == State(s.mounts[doc := s.next], s.listeners[doc := s.listeners[doc] + {s.next}], s.next + 1)
    {
      doc.listeners := doc.listeners + {next};
      mounts := mounts[doc := next];
      next := next + 1;
    }

    method MountExif(doc: Document) returns (h: Option<Handle<Document>>)
      requires doc in docs && OneListener(Abstract())
      modifies this`mounts, this`next, doc
      ensures (Abstract(), h) == Mount(old(Abstract()), doc)
      ensures OneListener(Abstract())
    {
      ApplyKeeps(Abstract(), DoMount(doc));
      if !doc.hasEvents { return None; }
      if doc in mounts { DestroyHandle(Handle(doc, mounts[doc])); }
      hide OneListener, Destroy;
      h := Some(Handle(doc, next));
      Listen(doc);
    }
  }
}
