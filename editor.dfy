/**
 * The editor of the state pattern: three states (no document, document open,
 * document saved) and five requests whose effect depends on the state. Each
 * request answers with the line the editor prints.
 */
module Editor {

  datatype EditorState = NoDocument | DocumentOpen | DocumentSaved

  /** The five requests, for the specification of a sequence of them. */
  datatype Request = Open | Read | Add(text: string) | Save | Close

  /** What the editor holds between requests. */
  datatype Snapshot = Snapshot(state: EditorState, contents: string)

  /** How each state moves on each request. */
  function Next(s: Snapshot, r: Request): Snapshot
  {
    match s.state
    case NoDocument => if r == Open then s.(state := DocumentOpen) else s
    case DocumentOpen => (
      match r
      case Open => s
      case Read => s
      case Add(text) => s.(contents := s.contents + text)
      case Save => s.(state := DocumentSaved)
      case Close => s.(state := DocumentSaved))
    case DocumentSaved => (
      match r
      case Open => Snapshot(DocumentOpen, "")
      case Read => s
      case Add(text) => Snapshot(DocumentOpen, s.contents + text)
      case Save => s
      case Close => s.(state := NoDocument))
  }

  /** The line each state prints for each request. */
  function Message(s: Snapshot, r: Request): string
  {
    match s.state
    case NoDocument => (
      match r
      case Open => "Document opened"
      case Read => "Can't read, no documet is open"
      case Add(_) => "Can't add, no documet is open"
      case Save => "Can't save, no documet is open"
      case Close => "Can't close, no documet is open")
    case DocumentOpen => (
      match r
      case Open => "Can't open new document, this one is not saved"
      case Read => s.contents
      case Add(_) => "Added text"
      case Save => "Document saved"
      case Close => "Can't close the document it is not saved")
    case DocumentSaved => (
      match r
      case Open => "New document opened"
      case Read => s.contents
      case Add(_) => "Added text"
      case Save => "It's already saved, but sure why not"
      case Close => "Document closed")
  }

  /** The snapshot after a sequence of requests. */
  function Final(s: Snapshot, rs: seq<Request>): Snapshot
    decreases |rs|
  {
    if rs == [] then s else Final(Next(s, rs[0]), rs[1..])
  }

  class Editor {
    var currentState: EditorState
    var documentContents: string

    ghost function Snap(): Snapshot
      reads this
    {
      Snapshot(currentState, documentContents)
    }

    /** NewEditor: no document and nothing written. */
    constructor ()
      ensures currentState == NoDocument && documentContents == ""
    {
      currentState := NoDocument;
      documentContents := "";
    }

    method SetState(state: EditorState)
      modifies this
      ensures currentState == state && documentContents == old(documentContents)
    {
      currentState := state;
    }

    method OpenDocument() returns (line: string)
      modifies this
      ensures Snap() == Next(old(Snap()), Open) && line == Message(old(Snap()), Open)
    {
      match currentState
      case NoDocument =>
        SetState(DocumentOpen);
        line := "Document opened";
      case DocumentOpen =>
        line := "Can't open new document, this one is not saved";
      case DocumentSaved =>
        documentContents := "";
        SetState(DocumentOpen);
        line := "New document opened";
    }

    method ReadDocument() returns (line: string)
      ensures Next(Snap(), Read) == Snap() && line == Message(Snap(), Read)
    {
      match currentState
      case NoDocument =>
        line := "Can't read, no documet is open";
      case DocumentOpen =>
        line := documentContents;
      case DocumentSaved =>
        line := documentContents;
    }

    method AddText(text: string) returns (line: string)
      modifies this
      ensures Snap() == Next(old(Snap()), Add(text)) && line == Message(old(Snap()), Add(text))
    {
      match currentState
      case NoDocument =>
        line := "Can't add, no documet is open";
      case DocumentOpen =>
        documentContents := documentContents + text;
        line := "Added text";
      case DocumentSaved =>
        documentContents := documentContents + text;
        SetState(DocumentOpen);
        line := "Added text";
    }

    method SaveDocument() returns (line: string)
      modifies this
      ensures Snap() == Next(old(Snap()), Save) && line == Message(old(Snap()), Save)
    {
      match currentState
      case NoDocument =>
        line := "Can't save, no documet is open";
      case DocumentOpen =>
        SetState(DocumentSaved);
        line := "Document saved";
      case DocumentSaved =>
        line := "It's already saved, but sure why not";
    }

    method CloseDocument() returns (line: string)
      modifies this
      ensures Snap() == Next(old(Snap()), Close) && line == Message(old(Snap()), Close)
    {
      match currentState
      case NoDocument =>
        line := "Can't close, no documet is open";
      case DocumentOpen =>
        SetState(DocumentSaved);
        line := "Can't close the document it is not saved";
      case DocumentSaved =>
        SetState(NoDocument);
        line := "Document closed";
    }
  }

  // ------------------------------------------------------------ properties

  /** Without a document only `Open` does anything, and it keeps the old text. */
  lemma NoDocumentOnlyOpens(s: Snapshot, r: Request)
    requires s.state == NoDocument
    ensures Next(s, r).contents == s.contents
    ensures Next(s, r).state != NoDocument <==> r == Open
    ensures r == Open ==> Next(s, r).state == DocumentOpen
  {
  }

  /**
   * The text changes in three ways only: an append of the added text while a
   * document is open or saved, a clear when a saved document is replaced by
   * a new one, or not at all.
   */
  lemma ContentsChanges(s: Snapshot, r: Request)
    ensures var c := Next(s, r).contents;
              || c == s.contents
              || (r.Add? && s.state != NoDocument && c == s.contents + r.text)
              || (r == Open && s.state == DocumentSaved && c == "")
    ensures r.Add? && s.state != NoDocument ==> Next(s, r) == Snapshot(DocumentOpen, s.contents + r.text)
    ensures r == Open && s.state == DocumentSaved ==> Next(s, r) == Snapshot(DocumentOpen, "")
  {
  }

  /** Reading changes nothing and, with a document, prints its text. */
  lemma ReadIsInert(s: Snapshot)
    ensures Next(s, Read) == s
    ensures s.state != NoDocument ==> Message(s, Read) == s.contents
  {
  }

  /** Only a saved document can be closed; an open one is merely marked saved. */
  lemma ClosingNeedsSave(s: Snapshot, r: Request)
    ensures Next(s, r).state == NoDocument <==>
              (s.state == NoDocument && r != Open) || (s.state == DocumentSaved && r == Close)
    ensures s.state == DocumentOpen && r == Close ==> Next(s, r) == s.(state := DocumentSaved)
  {
  }

  /** Closing and reopening keeps the old text, as neither step clears it. */
  lemma {:induction false} CloseThenOpenKeepsText(s: Snapshot)
    requires s.state == DocumentSaved
    ensures Final(s, [Close, Open]) == Snapshot(DocumentOpen, s.contents)
  {
    var mid := Next(s, Close);
    assert [Close, Open][1..] == [Open];
    assert Final(mid, [Open]) == Final(Next(mid, Open), []);
  }

  /** Runs compose: the requests `a + b` act as `a` followed by `b`. */
  lemma {:induction false} FinalAppend(s: Snapshot, a: seq<Request>, b: seq<Request>)
    ensures Final(s, a + b) == Final(Final(s, a), b)
    decreases |a|
  {
    if a == [] {
      assert a + b == b;
    } else {
      assert (a + b)[1..] == a[1..] + b;
      FinalAppend(Next(s, a[0]), a[1..], b);
    }
  }

  /** Without requests that open a document, the text only grows at its end. */
  lemma {:induction false} TextOnlyGrows(s: Snapshot, rs: seq<Request>)
    requires forall i :: 0 <= i < |rs| ==> rs[i] != Open
    ensures |s.contents| <= |Final(s, rs).contents|
    ensures Final(s, rs).contents[..|s.contents|] == s.contents
    decreases |rs|
  {
    if rs != [] {
      var next := Next(s, rs[0]);
      TextOnlyGrows(next, rs[1..]);
      var final := Final(s, rs).contents;
      assert next.contents[..|s.contents|] == s.contents;
      assert final[..|s.contents|] == final[..|next.contents|][..|s.contents|];
    }
  }

  /**
   * main's session: open, add "hi", a refused open, save, read, close. The
   * read prints "hi", and the session ends with no document but the text kept.
   */
  lemma {:induction false} MainSession()
    ensures Message(Final(Snapshot(NoDocument, ""), [Open, Add("hi"), Open, Save]), Read) == "hi"
    ensures Final(Snapshot(NoDocument, ""), [Open, Add("hi"), Open, Save, Read, Close]) == Snapshot(NoDocument, "hi")
  {
    var saved := Snapshot(DocumentSaved, "hi");
    var openHi := Snapshot(DocumentOpen, "hi");
    var t4: seq<Request> := [Read, Close];
    var t3: seq<Request> := [Save];
    var t2: seq<Request> := [Open] + t3;
    var t1: seq<Request> := [Add("hi")] + t2;
    var t0: seq<Request> := [Open] + t1;
    assert Final(saved, t4) == Snapshot(NoDocument, "hi") by {
      assert t4[1..] == [Close] && t4[1..][1..] == [];
    }
    assert Final(openHi, t3) == saved by {
      assert t3[1..] == [];
    }
    assert Final(openHi, t2) == saved by {
      assert t2[1..] == t3;
    }
    assert Final(Snapshot(DocumentOpen, ""), t1) == saved by {
      assert t1[1..] == t2 && [] + "hi" == "hi";
    }
    assert Final(Snapshot(NoDocument, ""), t0) == saved by {
      assert t0[1..] == t1;
    }
    FinalAppend(Snapshot(NoDocument, ""), t0, t4);
    assert t0 == [Open, Add("hi"), Open, Save];
    assert t0 + t4 == [Open, Add("hi"), Open, Save, Read, Close];
  }
}
