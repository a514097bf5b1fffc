/** `name_stack.go`: a stack of name frames rendered as a joined name. A
    frame's `Namer` function is abstract: `namer` gives its answer, and
    the index formatter is a parameter too. */
module NameStack {
  import Text
  import opened Wrappers

  datatype Frame = Frame(key: string, name: string, namer: Option<nat>, index: int)

  type Stack = seq<Frame>

  /** `withFrame`: pushes the frame, its key replaced by the last of
      `keys` when there is one. The closure it returns is `Pop`. */
  function WithFrame(s: Stack, frame: Frame, keys: seq<string>): (r: Stack)
    ensures |r| == |s| + 1 && r[..|s|] == s
    ensures r[|s|].name == frame.name && r[|s|].namer == frame.namer && r[|s|].index == frame.index
    ensures r[|s|].key == if |keys| > 0 then keys[|keys| - 1] else frame.key
  {
    var key := if |keys| > 0 then keys[|keys| - 1] else frame.key;
    s + [frame.(key := key)]
  }

  /** The closure returned by every `With*`: drops the last frame. */
  function Pop(s: Stack): (r: Stack)
    requires |s| > 0
    ensures |r| == |s| - 1 && s == r + [s[|s| - 1]]
  {
    s[..|s| - 1]
  }

  function WithName(s: Stack, name: string, keys: seq<string>): (r: Stack)
    ensures |r| == |s| + 1 && Pop(r) == s
    ensures r[|s|] == Frame(if |keys| > 0 then keys[|keys| - 1] else "", name, None, 0)
  {
    WithFrame(s, Frame("", name, None, 0), keys)
  }

  function WithNamer(s: Stack, namer: nat, keys: seq<string>): (r: Stack)
    ensures |r| == |s| + 1 && Pop(r) == s
    ensures r[|s|] == Frame(if |keys| > 0 then keys[|keys| - 1] else "", "", Some(namer), 0)
  {
    WithFrame(s, Frame("", "", Some(namer), 0), keys)
  }

  function WithIndex(s: Stack, index: int, keys: seq<string>): (r: Stack)
    ensures |r| == |s| + 1 && Pop(r) == s
    ensures r[|s|] == Frame(if |keys| > 0 then keys[|keys| - 1] else "", "", None, index)
  {
    WithFrame(s, Frame("", "", None, index), keys)
  }

  /** Every `With*` pushes exactly one frame, keyed by its last key or
      `""`, and its closure restores the stack. */
  lemma WithRestores(s: Stack, name: string, namer: nat, index: int, keys: seq<string>)
    ensures Pop(WithName(s, name, keys)) == s && Pop(WithNamer(s, namer, keys)) == s && Pop(WithIndex(s, index, keys)) == s
    ensures WithName(s, name, keys)[|s|] == Frame(if |keys| > 0 then keys[|keys| - 1] else "", name, None, 0)
    ensures WithNamer(s, namer, keys)[|s|] == Frame(if |keys| > 0 then keys[|keys| - 1] else "", "", Some(namer), 0)
    ensures WithIndex(s, index, keys)[|s|] == Frame(if |keys| > 0 then keys[|keys| - 1] else "", "", None, index)
  {
  }

  /** How `JoinOptions` renders one frame: its name, else its namer's
      answer, else its formatted index. */
  function Piece(f: Frame, namer: nat -> string, indexFormat: int -> string): (r: string)
    ensures f.name != "" ==> r == f.name
    ensures f.name == "" && f.namer.Some? ==> r == namer(f.namer.value)
    ensures f.name == "" && f.namer.None? ==> r == indexFormat(f.index)
  {
    if f.name != "" then f.name
    else if f.namer.Some? then namer(f.namer.value)
    else indexFormat(f.index)
  }

  function Pieces(s: Stack, namer: nat -> string, indexFormat: int -> string): (r: seq<string>)
    ensures |r| == |s|
    ensures forall i :: 0 <= i < |s| ==> r[i] == Piece(s[i], namer, indexFormat)
  {
    seq(|s|, i requires 0 <= i < |s| => Piece(s[i], namer, indexFormat))
  }

  /** `JoinOptions`: one piece per frame, joined with `sep`. */
  function JoinOptions(s: Stack, sep: string, namer: nat -> string, indexFormat: int -> string): (r: string)
    ensures |s| == 0 ==> r == ""
    ensures |s| == 1 ==> r == Piece(s[0], namer, indexFormat)
  {
    Text.Join(Pieces(s, namer, indexFormat), sep)
  }

  /** With a one-character separator that no piece contains, splitting
      the joined name gives back exactly one piece per frame. */
  lemma JoinOptionsSplit(s: Stack, sep: char, namer: nat -> string, indexFormat: int -> string)
    requires |s| >= 1
    requires forall i :: 0 <= i < |s| ==> sep !in Piece(s[i], namer, indexFormat)
    ensures Text.Split(JoinOptions(s, [sep], namer, indexFormat), sep) == Pieces(s, namer, indexFormat)
  {
    Text.SplitJoin(Pieces(s, namer, indexFormat), sep);
  }

  /** `NameStacker`: a stack with its separator. */
  datatype Stacker = Stacker(stack: Stack, sep: string)

  /** `NameStacker.String`. */
  function String(st: Stacker, namer: nat -> string, indexFormat: int -> string): (r: string)
    ensures |st.stack| == 0 ==> r == ""
    ensures |st.stack| == 1 ==> r == Piece(st.stack[0], namer, indexFormat)
  {
    JoinOptions(st.stack, st.sep, namer, indexFormat)
  }

  /** Pushing a named frame onto a non-empty stack extends its string by
      the separator and the name; popping gives the old string back. */
  lemma StringWithName(st: Stacker, name: string, keys: seq<string>, namer: nat -> string, indexFormat: int -> string)
    requires |st.stack| > 0 && name != ""
    ensures String(st.(stack := WithName(st.stack, name, keys)), namer, indexFormat) == String(st, namer, indexFormat) + st.sep + name
    ensures String(st.(stack := Pop(WithName(st.stack, name, keys))), namer, indexFormat) == String(st, namer, indexFormat)
  {
    var s := st.stack;
    var s2 := WithName(s, name, keys);
    assert Pieces(s2, namer, indexFormat) == Pieces(s, namer, indexFormat) + [name];
    Text.JoinSnoc(Pieces(s, namer, indexFormat), name, st.sep);
  }
}
