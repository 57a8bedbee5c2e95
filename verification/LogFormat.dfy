/**
 The placeholder formatter of inc/Log.h: `formatImpl` fills the leftmost `{}`
 with the first argument and goes on behind it with the other arguments.
 Arguments are strings here; the source streams them.
 */
module LogFormat {
  import opened Common

  const PLACEHOLDER: string := "{}"

  predicate PlaceholderAt(s: string, i: int) {
    0 <= i < |s| - 1 && s[i] == '{' && s[i + 1] == '}'
  }

  /** `format.find("{}")`. */
  function Find(s: string): (pos: Option<nat>)
    ensures pos.Some? ==> PlaceholderAt(s, pos.value) && forall i :: 0 <= i < pos.value ==> !PlaceholderAt(s, i)
    ensures pos.None? ==> forall i :: !PlaceholderAt(s, i)
  {
    FindFrom(s, 0)
  }

  function FindFrom(s: string, start: nat): (pos: Option<nat>)
    requires forall i :: 0 <= i < start ==> !PlaceholderAt(s, i)
    ensures pos.Some? ==> PlaceholderAt(s, pos.value) && forall i :: 0 <= i < pos.value ==> !PlaceholderAt(s, i)
    ensures pos.None? ==> forall i :: !PlaceholderAt(s, i)
    decreases |s| - start
  {
    if start >= |s| then None
    else if PlaceholderAt(s, start) then Some(start)
    else FindFrom(s, start + 1)
  }

  function FormatImpl(format: string, args: seq<string>): string
    decreases |args|
  {
    if |args| == 0 then format
    else match Find(format)
      case Some(pos) => format[..pos] + args[0] + FormatImpl(format[pos + 2..], args[1..])
      case None => format
  }

  // ---- The reference: split once, then interleave --------------------------------

  predicate Clean(s: string) {
    forall i :: 0 <= i < |s| ==> !PlaceholderAt(s, i)
  }

  /** The literal pieces of a format, between its placeholders. */
  function Split(format: string): (pieces: seq<string>)
    ensures pieces != []
    decreases |format|
  {
    match Find(format)
    case Some(pos) => [format[..pos]] + Split(format[pos + 2..])
    case None => [format]
  }

  /** The pieces with one filler in each gap. */
  function Interleave(pieces: seq<string>, fillers: seq<string>): string
    requires |pieces| == |fillers| + 1
    decreases |pieces|
  {
    if |fillers| == 0 then pieces[0] else pieces[0] + fillers[0] + Interleave(pieces[1..], fillers[1..])
  }

  /** Gap k gets argument k; without one it stays a placeholder. */
  function Fillers(gaps: nat, args: seq<string>): (fillers: seq<string>)
    ensures |fillers| == gaps
    ensures forall k :: 0 <= k < gaps ==> fillers[k] == if k < |args| then args[k] else PLACEHOLDER
  {
    seq(gaps, k requires 0 <= k => if k < |args| then args[k] else PLACEHOLDER)
  }

  /** Putting the placeholders back. */
  function Join(pieces: seq<string>): string
    requires pieces != []
  {
    Interleave(pieces, Fillers(|pieces| - 1, []))
  }

  lemma CutAt(format: string, pos: nat)
    requires PlaceholderAt(format, pos)
    ensures format == format[..pos] + PLACEHOLDER + format[pos + 2..]
  {
  }

  lemma CleanHead(format: string, pos: nat)
    requires pos <= |format| && forall i :: 0 <= i < pos ==> !PlaceholderAt(format, i)
    ensures Clean(format[..pos])
  {
    forall i | 0 <= i < pos ensures !PlaceholderAt(format[..pos], i) {
      assert !PlaceholderAt(format, i);
    }
  }

  lemma {:induction false} SplitPieces(format: string)
    ensures forall k :: 0 <= k < |Split(format)| ==> Clean(Split(format)[k])
    ensures Join(Split(format)) == format
    decreases |format|
  {
    match Find(format)
    case None =>
    case Some(pos) =>
      var head, rest := format[..pos], format[pos + 2..];
      hide Clean, Join;
      SplitPieces(rest);
      CleanHead(format, pos);
      JoinCons(head, Split(rest));
      CutAt(format, pos);
  }

  lemma JoinCons(head: string, pieces: seq<string>)
    requires pieces != []
    ensures Join([head] + pieces) == head + PLACEHOLDER + Join(pieces)
  {
    assert ([head] + pieces)[1..] == pieces;
    assert Fillers(|pieces|, [])[1..] == Fillers(|pieces| - 1, []);
  }

  /** In a clean piece followed by a placeholder, the leftmost placeholder is that one. */
  lemma FirstPlaceholder(head: string, rest: string)
    requires Clean(head)
    ensures Find(head + PLACEHOLDER + rest) == Some(|head|)
  {
    var s := head + PLACEHOLDER + rest;
    assert PlaceholderAt(s, |head|);
    forall i | 0 <= i < |head| ensures !PlaceholderAt(s, i) {
      assert !PlaceholderAt(head, i);
    }
  }

  /** `Split` is the only way to cut a format at placeholders into clean pieces. */
  lemma {:induction false} SplitExact(format: string, pieces: seq<string>)
    requires pieces != []
    ensures (forall k :: 0 <= k < |pieces| ==> Clean(pieces[k])) && Join(pieces) == format <==> pieces == Split(format)
    decreases |pieces|
  {
    SplitPieces(format);
    if (forall k :: 0 <= k < |pieces| ==> Clean(pieces[k])) && Join(pieces) == format {
      if |pieces| == 1 {
        assert !exists i :: PlaceholderAt(format, i);
      } else {
        var head, tail := pieces[0], pieces[1..];
        assert pieces == [head] + tail;
        JoinCons(head, tail);
        FirstPlaceholder(head, Join(tail));
        assert format[|head| + 2..] == Join(tail) && format[..|head|] == head;
        forall k | 0 <= k < |tail| ensures Clean(tail[k]) {
          assert tail[k] == pieces[k + 1];
        }
        SplitExact(Join(tail), tail);
      }
    }
  }

  /**
   Formatting is splitting once and filling the gaps in order: argument text is
   never searched for placeholders, surplus arguments are dropped, surplus
   placeholders stay as they are.
   */
  lemma {:induction false} FormatIsInterleave(format: string, args: seq<string>)
    ensures FormatImpl(format, args) == Interleave(Split(format), Fillers(|Split(format)| - 1, args))
    decreases |args|
  {
    if |args| == 0 {
      SplitPieces(format);
      assert Fillers(|Split(format)| - 1, args) == Fillers(|Split(format)| - 1, []);
    } else {
      match Find(format)
      case None =>
      case Some(pos) =>
        var rest := format[pos + 2..];
        FormatIsInterleave(rest, args[1..]);
        assert Split(format)[1..] == Split(rest);
        assert Fillers(|Split(rest)|, args)[1..] == Fillers(|Split(rest)| - 1, args[1..]);
    }
  }

  /** Arguments beyond the last placeholder do not appear. */
  lemma SurplusArgumentsDropped(format: string, args: seq<string>, more: seq<string>)
    requires |args| >= |Split(format)| - 1
    ensures FormatImpl(format, args + more) == FormatImpl(format, args)
  {
    FormatIsInterleave(format, args);
    FormatIsInterleave(format, args + more);
    assert Fillers(|Split(format)| - 1, args + more) == Fillers(|Split(format)| - 1, args);
  }

  // ---- A log line -----------------------------------------------------------------

  /** The text that `log` queues. */
  function LineOf(file: string, line: string, func: string, format: string, args: seq<string>): string {
    "[" + file + ":" + line + " - " + func + "] " + FormatImpl(format, args)
  }

  /** Its header is followed by the pieces of the format with the arguments in the gaps. */
  lemma LineExact(file: string, line: string, func: string, format: string, args: seq<string>)
    ensures LineOf(file, line, func, format, args)
            == "[" + file + ":" + line + " - " + func + "] "
               + Interleave(Split(format), Fillers(|Split(format)| - 1, args))
  {
    FormatIsInterleave(format, args);
  }
}
