/**
 The part of SQLite that ESDB's transactions rest on: the content a connection sees, the committed
 content other connections see, the autocommit flag, and the stack of named savepoints. Statements are
 functions on this machine; whether one fails is decided by the connection that executes it.
 */
module Sqlite {
  import opened Common

  datatype Frame<+T> = Frame(name: string, saved: T)

  function FoldCase(c: char): char {
    if 'A' <= c <= 'Z' then c - 'A' + 'a' else c
  }

  /** SQLite compares savepoint names ignoring (ASCII) case. */
  predicate SameName(a: string, b: string) {
    |a| == |b| && forall i :: 0 <= i < |a| ==> FoldCase(a[i]) == FoldCase(b[i])
  }

  datatype Machine<T> = Machine(content: T, committed: T, inTransaction: bool, stack: seq<Frame<T>>) {
    function Begin(): Machine<T> {
      this.(inTransaction := true)
    }

    function Commit(): Machine<T> {
      Machine(content, content, false, [])
    }

    function Rollback(): Machine<T> {
      Machine(committed, committed, false, [])
    }

    /** A statement that changes tables: outside a transaction it commits by itself. */
    function Write(content': T): Machine<T> {
      if inTransaction then this.(content := content') else this.(content := content', committed := content')
    }

    function Savepoint(name: string): Machine<T> {
      this.(stack := stack + [Frame(name, content)])
    }

    /** RELEASE forgets the most recent savepoint of that name and everything above it. */
    function Release(name: string): Machine<T>
      requires Find(stack, name) >= 0
    {
      this.(stack := stack[..Find(stack, name)])
    }

    /** ROLLBACK TO restores the content saved there and keeps that savepoint on top. */
    function RollbackTo(name: string): Machine<T>
      requires Find(stack, name) >= 0
    {
      var i := Find(stack, name);
      this.(content := stack[i].saved, stack := stack[..i + 1])
    }
  }

  /** The most recent savepoint with that name, or -1. */
  function Find<T>(stack: seq<Frame<T>>, name: string): (i: int)
    ensures -1 <= i < |stack|
  {
    if stack == [] then -1
    else if SameName(stack[|stack| - 1].name, name) then |stack| - 1
    else Find(stack[..|stack| - 1], name)
  }

  /** The name of ESDB's internal mutation scope. */
  const INTERNAL: string := "__esdb_mutation"
  const RESERVED: string := "__esdb_"
  const NAME_MAX_BYTES: nat := 64

  predicate Allowed(c: char) {
    'A' <= c <= 'Z' || 'a' <= c <= 'z' || '0' <= c <= '9' || c == '_'
  }

  predicate Reserved(name: string) {
    |name| >= |RESERVED| && SameName(name[..|RESERVED|], RESERVED)
  }

  /** What a public savepoint may be called. */
  predicate ValidName(name: string) {
    && 1 <= |name| <= NAME_MAX_BYTES
    && (forall i :: 0 <= i < |name| ==> Allowed(name[i]))
    && !Reserved(name)
  }

  /** valid_savepoint_name: one scan of the characters and one of the reserved prefix, folding case as it goes. */
  method ValidSavepointName(text: string) returns (valid: bool)
    ensures valid == ValidName(text)
  {
    if text == [] {
      return false;
    }
    var length := 0;
    while length < |text|
      invariant length <= |text| && length <= NAME_MAX_BYTES
      invariant forall i :: 0 <= i < length ==> Allowed(text[i])
    {
      var c := text[length];
      if !('A' <= c <= 'Z' || 'a' <= c <= 'z' || '0' <= c <= '9' || c == '_') {
        return false;
      }
      length := length + 1;
      if length > NAME_MAX_BYTES {
        return false;
      }
    }
    if length >= |RESERVED| {
      var matches := true;
      var i := 0;
      while i < |RESERVED|
        invariant i <= |RESERVED|
        invariant forall k :: 0 <= k < i ==> FoldCase(text[k]) == FoldCase(RESERVED[k])
      {
        var c := text[i];
        if 'A' <= c <= 'Z' {
          c := c - 'A' + 'a';
        }
        if c != RESERVED[i] {
          assert FoldCase(text[..|RESERVED|][i]) != FoldCase(RESERVED[i]);
          matches := false;
          break;
        }
        i := i + 1;
      }
      if matches {
        return false;
      }
    }
    return true;
  }

  ghost predicate FramesNamed<T>(stack: seq<Frame<T>>) {
    forall i :: 0 <= i < |stack| ==> ValidName(stack[i].name) || stack[i].name == INTERNAL
  }

  /** The caller's savepoints among those on SQLite's stack, bottom first. */
  function UserFrames<T>(stack: seq<Frame<T>>): seq<Frame<T>> {
    if stack == [] then []
    else
      var top := stack[|stack| - 1];
      UserFrames(stack[..|stack| - 1]) + if top.name == INTERNAL then [] else [top]
  }

  lemma SameAsInternal(name: string)
    ensures SameName(INTERNAL, name) || SameName(name, INTERNAL) ==> Reserved(name)
  {
    if SameName(INTERNAL, name) || SameName(name, INTERNAL) {
      assert forall i :: 0 <= i < |RESERVED| ==>
             FoldCase(name[i]) == FoldCase(INTERNAL[i]) && INTERNAL[i] == RESERVED[i];
      assert SameName(name[..|RESERVED|], RESERVED);
    }
  }

  lemma InternalIsReserved(name: string)
    requires ValidName(name)
    ensures !SameName(INTERNAL, name) && !SameName(name, INTERNAL)
  {
    SameAsInternal(name);
  }

  lemma SameNameReflexive(name: string)
    ensures SameName(name, name)
  {
  }

  /**
   Whatever internal scopes lie on top of it, SQLite finds the caller's most recent savepoint under its name: it is the
   true top of the caller's stack, duplicates and case variants further down included.
   */
  lemma {:induction false} TopUserFrame<T>(stack: seq<Frame<T>>, name: string)
    requires FramesNamed(stack) && ValidName(name)
    requires var users := UserFrames(stack); users != [] && users[|users| - 1].name == name
    ensures var i := Find(stack, name); var users := UserFrames(stack);
            && i >= 0
            && stack[i] == users[|users| - 1]
            && UserFrames(stack[..i]) == users[..|users| - 1]
            && UserFrames(stack[..i + 1]) == users
  {
    var top, below := stack[|stack| - 1], stack[..|stack| - 1];
    if top.name == INTERNAL {
      InternalIsReserved(name);
      assert UserFrames(stack) == UserFrames(below);
      TopUserFrame(below, name);
      var i := Find(below, name);
      assert stack[..i] == below[..i] && stack[..i + 1] == below[..i + 1];
    } else {
      SameNameReflexive(name);
      assert stack[..|stack|] == stack;
    }
  }

  lemma UserFramesPush<T>(stack: seq<Frame<T>>, f: Frame<T>)
    ensures UserFrames(stack + [f]) == UserFrames(stack) + if f.name == INTERNAL then [] else [f]
  {
    assert (stack + [f])[..|stack|] == stack;
  }
}
