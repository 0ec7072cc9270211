/** The tag transcoder of the translation backend.

    The backend writes emphasis spans in a private delimiter notation:
    `§X` opens a region tagged `X` and `§!` closes the region opened last.
    `Encode` rewrites that notation as HTML-like tags (`<X>` … `</X>`) so that
    a translation service with HTML tag handling keeps the spans, and `Decode`
    maps the tags back.  Both are total: a close with no open region is
    silently dropped, and a lone trailing delimiter or `<` produces what the
    JavaScript string operations produce for an index past the end. */
module Transcoder {

  /** The delimiter that starts an instruction. */
  const Delimiter: char := '§'

  /** The character that, after the delimiter, makes a close instruction. */
  const CloseMark: char := '!'

  /** What JavaScript prints for `text[i + 1]` when `i + 1` is past the end. */
  const Undefined: string := "undefined"

  /** `s` without its first `n` characters; empty when `n` runs past the end
      (a `for` loop whose index has skipped past the end just stops). */
  function Drop(s: string, n: nat): (r: string)
    ensures n <= |s| ==> r == s[n..]
    ensures |s| <= n ==> r == []
  {
    if n <= |s| then s[n..] else []
  }

  // ---------------------------------------------------------------------------
  // Encoding: a left-to-right scan with an explicit stack of open identifiers
  // ---------------------------------------------------------------------------

  /** The encoding of `text` when the identifiers in `stack` are still open
      (the most recently opened one last). */
  function EncodeWith(text: string, stack: seq<char>): (r: string)
    decreases |text|
  {
    if |text| == 0 then ""
    else if text[0] != Delimiter then [text[0]] + EncodeWith(text[1..], stack)
    else if |text| == 1 then "<" + Undefined + ">"
    else if text[1] == CloseMark then
      if |stack| == 0 then EncodeWith(text[2..], stack)
      else "</" + [stack[|stack| - 1]] + ">" + EncodeWith(text[2..], stack[..|stack| - 1])
    else "<" + [text[1]] + ">" + EncodeWith(text[2..], stack + [text[1]])
  }

  /** Delimiter notation to tags.  Text without a delimiter is left as it is,
      and nothing is appended for regions still open at the end. */
  function Encode(text: string): (r: string)
    ensures Delimiter !in text ==> r == text
  {
    EncodePlain(text, []);
    EncodeWith(text, [])
  }

  /** The stack after scanning `text` from `stack`.  A lone trailing
      delimiter leaves it as it is: nothing reads the stack after it. */
  function StackAfter(text: string, stack: seq<char>): (r: seq<char>)
    decreases |text|
  {
    if |text| == 0 then stack
    else if text[0] != Delimiter then StackAfter(text[1..], stack)
    else if |text| == 1 then stack
    else if text[1] == CloseMark then
      if |stack| == 0 then StackAfter(text[2..], stack)
      else StackAfter(text[2..], stack[..|stack| - 1])
    else StackAfter(text[2..], stack + [text[1]])
  }

  /** The scan of `Encode`, written as the source's loop: an index that
      skips the character after each delimiter, an output that grows, and a
      stack of open identifiers. */
  method EncodeScan(text: string) returns (output: string)
    ensures output == Encode(text)
  {
    var stack: seq<char> := [];
    output := "";
    var i := 0;
    assert Drop(text, 0) == text;
    while i < |text|
      invariant output + EncodeWith(Drop(text, i), stack) == Encode(text)
      decreases |text| - i
    {
      var emitted: string;
      var next: nat;
      var stack' := stack;
      if text[i] != Delimiter {
        emitted := [text[i]];
        next := i + 1;
      } else if i + 1 == |text| {
        // `text[i + 1]` is undefined: its tag is printed as such, and the
        // index skips past the end
        emitted := "<" + Undefined + ">";
        next := |text|;
      } else if text[i + 1] == CloseMark {
        if |stack| > 0 {
          emitted := "</" + [stack[|stack| - 1]] + ">";
          stack' := stack[..|stack| - 1];
        } else {
          emitted := "";
        }
        next := i + 2;
      } else {
        emitted := "<" + [text[i + 1]] + ">";
        stack' := stack + [text[i + 1]];
        next := i + 2;
      }
      assert EncodeWith(Drop(text, i), stack) == emitted + EncodeWith(Drop(text, next), stack') by {
        EncodeStep(text, i, stack);
      }
      Regroup(output, emitted, EncodeWith(Drop(text, next), stack'));
      output := output + emitted;
      stack := stack';
      i := next;
    }
  }

  /** Concatenation regrouped, for the scans' invariants. */
  lemma Regroup(a: string, b: string, c: string)
    ensures (a + b) + c == a + (b + c)
  {
  }

  /** One step of the encoding scan at index `i` with `stack` open. */
  lemma EncodeStep(text: string, i: nat, stack: seq<char>)
    requires i < |text|
    ensures text[i] != Delimiter ==>
      EncodeWith(Drop(text, i), stack) == [text[i]] + EncodeWith(Drop(text, i + 1), stack)
    ensures text[i] == Delimiter && i + 1 == |text| ==>
      EncodeWith(Drop(text, i), stack) == "<" + Undefined + ">"
    ensures text[i] == Delimiter && i + 1 < |text| && text[i + 1] == CloseMark && |stack| == 0 ==>
      EncodeWith(Drop(text, i), stack) == EncodeWith(Drop(text, i + 2), stack)
    ensures text[i] == Delimiter && i + 1 < |text| && text[i + 1] == CloseMark && |stack| > 0 ==>
      EncodeWith(Drop(text, i), stack)
        == "</" + [stack[|stack| - 1]] + ">" + EncodeWith(Drop(text, i + 2), stack[..|stack| - 1])
    ensures text[i] == Delimiter && i + 1 < |text| && text[i + 1] != CloseMark ==>
      EncodeWith(Drop(text, i), stack)
        == "<" + [text[i + 1]] + ">" + EncodeWith(Drop(text, i + 2), stack + [text[i + 1]])
  {
    var rest := Drop(text, i);
    assert rest[0] == text[i];
    if text[i] != Delimiter {
      assert rest[1..] == Drop(text, i + 1);
    } else if i + 1 < |text| {
      assert rest[1] == text[i + 1];
      assert rest[2..] == Drop(text, i + 2);
    }
  }

  // ---------------------------------------------------------------------------
  // Decoding: a stateless remap with fixed-width skips
  // ---------------------------------------------------------------------------

  /** Tags to delimiter notation.  A `<` followed by `/` becomes `§!` and four
      characters are consumed; any other `<X` becomes `§X` and three are
      consumed.  The `>` and the closing identifier are never looked at. */
  function Decode(text: string): (r: string)
    ensures '<' !in text ==> r == text
    decreases |text|
  {
    if |text| == 0 then ""
    else if text[0] != '<' then
      assert '<' !in text ==> '<' !in text[1..] by {
        assert forall k :: 0 <= k < |text[1..]| ==> text[1..][k] == text[k + 1];
      }
      [text[0]] + Decode(text[1..])
    else if |text| == 1 then [Delimiter] + Undefined
    else if text[1] == '/' then [Delimiter, CloseMark] + Decode(Drop(text, 4))
    else [Delimiter, text[1]] + Decode(Drop(text, 3))
  }

  /** The scan of `Decode`, written as the source's loop. */
  method DecodeScan(text: string) returns (output: string)
    ensures output == Decode(text)
  {
    output := "";
    var i := 0;
    assert Drop(text, 0) == text;
    while i < |text|
      invariant i <= |text|
      invariant output + Decode(Drop(text, i)) == Decode(text)
      decreases |text| - i
    {
      DecodeStep(text, i);
      var emitted: string;
      var width := 1;
      if text[i] != '<' {
        emitted := [text[i]];
      } else if i + 1 == |text| {
        // `text[i + 1]` is undefined and is printed as such
        emitted := [Delimiter] + Undefined;
      } else if text[i + 1] == '/' {
        emitted := [Delimiter, CloseMark];
        width := 4;
      } else {
        emitted := [Delimiter, text[i + 1]];
        width := 3;
      }
      var next := if i + width <= |text| then i + width else |text|;
      assert Drop(text, i + width) == Drop(text, next);
      assert Decode(Drop(text, i)) == emitted + Decode(Drop(text, next));
      assert (output + emitted) + Decode(Drop(text, next)) == output + Decode(Drop(text, i));
      output := output + emitted;
      i := next;
    }
  }

  /** One step of the decoding scan at index `i`: what it emits, and where
      it goes on. */
  lemma DecodeStep(text: string, i: nat)
    requires i < |text|
    ensures text[i] != '<' ==>
      Decode(Drop(text, i)) == [text[i]] + Decode(Drop(text, i + 1))
    ensures text[i] == '<' && i + 1 == |text| ==>
      Decode(Drop(text, i)) == [Delimiter] + Undefined
    ensures text[i] == '<' && i + 1 < |text| && text[i + 1] == '/' ==>
      Decode(Drop(text, i)) == [Delimiter, CloseMark] + Decode(Drop(text, i + 4))
    ensures text[i] == '<' && i + 1 < |text| && text[i + 1] != '/' ==>
      Decode(Drop(text, i)) == [Delimiter, text[i + 1]] + Decode(Drop(text, i + 3))
  {
    var rest := Drop(text, i);
    assert rest[0] == text[i];
    if text[i] != '<' {
      assert rest[1..] == Drop(text, i + 1);
    } else if i + 1 < |text| {
      assert rest[1] == text[i + 1];
      assert Drop(rest, 3) == Drop(text, i + 3);
      assert Drop(rest, 4) == Drop(text, i + 4);
    }
  }

  // ---------------------------------------------------------------------------
  // The shape of delimiter text
  // ---------------------------------------------------------------------------

  /** Every delimiter in `text` has the character it governs after it. */
  predicate Aligned(text: string)
    decreases |text|
  {
    if |text| == 0 then true
    else if text[0] != Delimiter then Aligned(text[1..])
    else |text| >= 2 && Aligned(text[2..])
  }

  /** The identifiers `text` opens, in order. */
  function OpenIds(text: string): (r: seq<char>)
    decreases |text|
  {
    if |text| <= 1 then []
    else if text[0] != Delimiter then OpenIds(text[1..])
    else if text[1] == CloseMark then OpenIds(text[2..])
    else [text[1]] + OpenIds(text[2..])
  }

  /** The number of close instructions in `text`. */
  function CloseCount(text: string): (n: nat)
    decreases |text|
  {
    if |text| <= 1 then 0
    else if text[0] != Delimiter then CloseCount(text[1..])
    else if text[1] == CloseMark then 1 + CloseCount(text[2..])
    else CloseCount(text[2..])
  }

  /** Every close instruction of `text` finds a region open, when `depth`
      regions are open before it. */
  predicate ClosesMatched(text: string, depth: nat)
    decreases |text|
  {
    if |text| <= 1 then true
    else if text[0] != Delimiter then ClosesMatched(text[1..], depth)
    else if text[1] == CloseMark then depth > 0 && ClosesMatched(text[2..], depth - 1)
    else ClosesMatched(text[2..], depth + 1)
  }

  /** `text` without the close instructions that find no region open, when
      `depth` regions are open before it. */
  function DropDangling(text: string, depth: nat): (r: string)
    decreases |text|
  {
    if |text| <= 1 then text
    else if text[0] != Delimiter then [text[0]] + DropDangling(text[1..], depth)
    else if text[1] == CloseMark then
      if depth == 0 then DropDangling(text[2..], 0)
      else [Delimiter, CloseMark] + DropDangling(text[2..], depth - 1)
    else [Delimiter, text[1]] + DropDangling(text[2..], depth + 1)
  }

  // ---------------------------------------------------------------------------
  // Properties of Encode
  // ---------------------------------------------------------------------------

  /** Text without a delimiter is copied through, whatever is still open. */
  lemma {:induction false} EncodePlain(text: string, stack: seq<char>)
    ensures Delimiter !in text ==> EncodeWith(text, stack) == text
    decreases |text|
  {
    if |text| > 0 && Delimiter !in text {
      assert text[0] in text;
      assert forall k :: 0 <= k < |text[1..]| ==> text[1..][k] == text[k + 1];
      EncodePlain(text[1..], stack);
      assert text == [text[0]] + text[1..];
    }
  }

  /** The encoding of an aligned prefix followed by more text is the prefix's
      encoding followed by the rest's, scanned with the stack the prefix left. */
  lemma {:induction false} EncodeAppend(a: string, b: string, stack: seq<char>)
    requires Aligned(a)
    ensures EncodeWith(a + b, stack) == EncodeWith(a, stack) + EncodeWith(b, StackAfter(a, stack))
    decreases |a|
  {
    if |a| == 0 {
      assert a + b == b;
    } else if a[0] != Delimiter {
      assert (a + b)[1..] == a[1..] + b;
      EncodeAppend(a[1..], b, stack);
    } else {
      assert (a + b)[1] == a[1];
      assert (a + b)[2..] == a[2..] + b;
      if a[1] == CloseMark {
        if |stack| == 0 {
          EncodeAppend(a[2..], b, stack);
        } else {
          EncodeAppend(a[2..], b, stack[..|stack| - 1]);
        }
      } else {
        EncodeAppend(a[2..], b, stack + [a[1]]);
      }
    }
  }

  /** LIFO pairing: a region opened with `§x` whose body is balanced is closed
      by the next `§!`, and the two become `<x>` and `</x>` around the body's
      encoding; afterwards the stack is as it was before the region. */
  lemma EncodeRegion(x: char, body: string, rest: string, stack: seq<char>)
    requires x != CloseMark
    requires Aligned(body) && StackAfter(body, stack + [x]) == stack + [x]
    ensures EncodeWith([Delimiter, x] + body + [Delimiter, CloseMark] + rest, stack)
         == "<" + [x] + ">" + EncodeWith(body, stack + [x]) + "</" + [x] + ">" + EncodeWith(rest, stack)
  {
    var close := [Delimiter, CloseMark] + rest;
    var grown := stack + [x];
    assert [Delimiter, x] + body + [Delimiter, CloseMark] + rest == [Delimiter, x] + (body + close);
    EncodeOpen(x, body + close, stack);
    EncodeAppend(body, close, grown);
    EncodeClose(rest, grown);
    assert grown[|grown| - 1] == x && grown[..|grown| - 1] == stack;
  }

  /** An open instruction emits its tag and pushes its identifier. */
  lemma EncodeOpen(x: char, rest: string, stack: seq<char>)
    requires x != CloseMark
    ensures EncodeWith([Delimiter, x] + rest, stack) == "<" + [x] + ">" + EncodeWith(rest, stack + [x])
  {
    assert ([Delimiter, x] + rest)[2..] == rest;
  }

  /** A close instruction with a region open emits the closing tag of the
      region opened last and pops it. */
  lemma EncodeClose(rest: string, stack: seq<char>)
    requires |stack| > 0
    ensures EncodeWith([Delimiter, CloseMark] + rest, stack)
         == "</" + [stack[|stack| - 1]] + ">" + EncodeWith(rest, stack[..|stack| - 1])
  {
    assert ([Delimiter, CloseMark] + rest)[2..] == rest;
  }

  /** Close instructions that find no region open contribute nothing to the
      encoding: encoding `text` and encoding it with them removed agree. */
  lemma {:induction false} EncodeIgnoresDangling(text: string, stack: seq<char>)
    ensures EncodeWith(DropDangling(text, |stack|), stack) == EncodeWith(text, stack)
    decreases |text|
  {
    if |text| <= 1 {
    } else if text[0] != Delimiter {
      var d := DropDangling(text[1..], |stack|);
      assert ([text[0]] + d)[1..] == d;
      EncodeIgnoresDangling(text[1..], stack);
    } else if text[1] == CloseMark {
      if |stack| == 0 {
        EncodeIgnoresDangling(text[2..], stack);
      } else {
        var d := DropDangling(text[2..], |stack| - 1);
        assert ([Delimiter, CloseMark] + d)[2..] == d;
        EncodeIgnoresDangling(text[2..], stack[..|stack| - 1]);
      }
    } else {
      var d := DropDangling(text[2..], |stack| + 1);
      assert ([Delimiter, text[1]] + d)[2..] == d;
      EncodeIgnoresDangling(text[2..], stack + [text[1]]);
    }
  }

  // ---------------------------------------------------------------------------
  // Dropping dangling closes
  // ---------------------------------------------------------------------------

  /** Dropping the dangling closes leaves text in which every close finds a
      region open, and never lengthens the text. */
  lemma {:induction false} DropDanglingMatches(text: string, depth: nat)
    ensures ClosesMatched(DropDangling(text, depth), depth)
    ensures |DropDangling(text, depth)| <= |text|
    decreases |text|
  {
    if |text| <= 1 {
    } else if text[0] != Delimiter {
      var d := DropDangling(text[1..], depth);
      DropDanglingMatches(text[1..], depth);
      assert ([text[0]] + d)[1..] == d;
    } else if text[1] == CloseMark {
      if depth == 0 {
        DropDanglingMatches(text[2..], 0);
      } else {
        var d := DropDangling(text[2..], depth - 1);
        DropDanglingMatches(text[2..], depth - 1);
        assert ([Delimiter, CloseMark] + d)[2..] == d;
      }
    } else {
      var d := DropDangling(text[2..], depth + 1);
      DropDanglingMatches(text[2..], depth + 1);
      assert ([Delimiter, text[1]] + d)[2..] == d;
    }
  }

  /** Text in which some close finds no region open gets strictly shorter. */
  lemma {:induction false} DropDanglingShortens(text: string, depth: nat)
    requires !ClosesMatched(text, depth)
    ensures |DropDangling(text, depth)| < |text|
    decreases |text|
  {
    if text[0] != Delimiter {
      DropDanglingShortens(text[1..], depth);
    } else if text[1] == CloseMark {
      if depth == 0 {
        DropDanglingMatches(text[2..], 0);
      } else {
        DropDanglingShortens(text[2..], depth - 1);
      }
    } else {
      DropDanglingShortens(text[2..], depth + 1);
    }
  }

  /** Dropping dangling closes changes the text exactly when some close
      finds no region open. */
  lemma {:induction false} DropDanglingIdentity(text: string, depth: nat)
    ensures DropDangling(text, depth) == text <==> ClosesMatched(text, depth)
    decreases |text|
  {
    if !ClosesMatched(text, depth) {
      DropDanglingShortens(text, depth);
    } else if |text| <= 1 {
    } else if text[0] != Delimiter {
      DropDanglingIdentity(text[1..], depth);
      assert text == [text[0]] + text[1..];
    } else if text[1] == CloseMark {
      DropDanglingIdentity(text[2..], depth - 1);
      assert text == [Delimiter, CloseMark] + text[2..];
    } else {
      DropDanglingIdentity(text[2..], depth + 1);
      assert text == [Delimiter, text[1]] + text[2..];
    }
  }

  /** Whatever the text, the closes that survive are no more than the
      regions open before it plus the regions it opens. */
  lemma {:induction false} SurvivingClosesBounded(text: string, depth: nat)
    ensures CloseCount(DropDangling(text, depth)) <= depth + |OpenIds(text)|
    decreases |text|
  {
    if |text| <= 1 {
    } else if text[0] != Delimiter {
      var d := DropDangling(text[1..], depth);
      SurvivingClosesBounded(text[1..], depth);
      CloseCountLiteral(text[0], d);
    } else if text[1] == CloseMark {
      if depth == 0 {
        SurvivingClosesBounded(text[2..], 0);
      } else {
        var d := DropDangling(text[2..], depth - 1);
        SurvivingClosesBounded(text[2..], depth - 1);
        assert ([Delimiter, CloseMark] + d)[2..] == d;
      }
    } else {
      var d := DropDangling(text[2..], depth + 1);
      SurvivingClosesBounded(text[2..], depth + 1);
      assert ([Delimiter, text[1]] + d)[2..] == d;
    }
  }

  /** A character other than the delimiter adds no close instruction. */
  lemma CloseCountLiteral(c: char, text: string)
    requires c != Delimiter
    ensures CloseCount([c] + text) == CloseCount(text)
  {
    assert ([c] + text)[1..] == text;
  }

  // ---------------------------------------------------------------------------
  // Tags in the encoding
  // ---------------------------------------------------------------------------

  /** The number of `<` in `s`: the tags it holds, when the text had none. */
  function Tags(s: string): (n: nat)
    decreases |s|
  {
    if |s| == 0 then 0
    else (if s[0] == '<' then 1 else 0) + Tags(s[1..])
  }

  /** The number of `<` immediately followed by `/` in `s`: its closing
      tags. */
  function ClosingTags(s: string): (n: nat)
    decreases |s|
  {
    if |s| == 0 then 0
    else (if s[0] == '<' && |s| > 1 && s[1] == '/' then 1 else 0) + ClosingTags(s[1..])
  }

  /** Counting tags splits over a concatenation whose first part does not end
      in `<`. */
  lemma {:induction false} TagsAppend(a: string, b: string)
    requires |a| == 0 || a[|a| - 1] != '<'
    ensures Tags(a + b) == Tags(a) + Tags(b)
    ensures ClosingTags(a + b) == ClosingTags(a) + ClosingTags(b)
    decreases |a|
  {
    if |a| == 0 {
      assert a + b == b;
    } else {
      assert (a + b)[0] == a[0];
      assert (a + b)[1..] == a[1..] + b;
      TagsAppend(a[1..], b);
      if |a| == 1 {
        assert a[1..] == [];
      } else {
        assert (a + b)[1] == a[1];
      }
    }
  }

  /** Counting tags one character at a time. */
  lemma TagsCons(c: char, s: string)
    ensures Tags([c] + s) == (if c == '<' then 1 else 0) + Tags(s)
    ensures ClosingTags([c] + s) == (if c == '<' && |s| > 0 && s[0] == '/' then 1 else 0) + ClosingTags(s)
  {
    assert ([c] + s)[1..] == s;
  }

  /** The tags of the three-character piece `<x>`. */
  lemma TagPiece(x: char)
    requires x != '<'
    ensures Tags(['<', x, '>']) == 1
    ensures ClosingTags(['<', x, '>']) == (if x == '/' then 1 else 0)
  {
    TagsCons('>', []);
    assert ['>'] + [] == ['>'];
    TagsCons(x, ['>']);
    assert [x] + ['>'] == [x, '>'];
    TagsCons('<', [x, '>']);
    assert ['<'] + [x, '>'] == ['<', x, '>'];
  }

  /** The tags of the closing piece `</y>`. */
  lemma ClosingPiece(y: char)
    requires y != '<'
    ensures Tags(['<', '/', y, '>']) == 1
    ensures ClosingTags(['<', '/', y, '>']) == 1
  {
    TagPiece(y);
    TagsCons('/', ['<', y, '>'][1..]);
    assert ['/'] + ['<', y, '>'][1..] == ['/', y, '>'];
    TagsCons('<', ['/', y, '>']);
    assert ['<'] + ['/', y, '>'] == ['<', '/', y, '>'];
  }

  /** The tag `<undefined>` printed for a lone trailing delimiter. */
  lemma UndefinedPiece()
    ensures Tags("<" + Undefined + ">") == 1
    ensures ClosingTags("<" + Undefined + ">") == 0
  {
    var p := "<" + Undefined + ">";
    assert p[1..] == Undefined + ">";
    assert '<' !in p[1..];
    NoTags(p[1..]);
  }

  /** Text without `<` holds no tag. */
  lemma {:induction false} NoTags(s: string)
    requires '<' !in s
    ensures Tags(s) == 0 && ClosingTags(s) == 0
    decreases |s|
  {
    if |s| > 0 {
      assert s[0] in s;
      assert forall k :: 0 <= k < |s[1..]| ==> s[1..][k] == s[k + 1];
      NoTags(s[1..]);
    }
  }

  /** The tag counts of the encoding of `text` from `stack`: one closing
      tag for each close that finds a region open, and besides those one
      opening tag for each region opened, plus `<undefined>` for a lone
      trailing delimiter. */
  predicate TagCounts(text: string, stack: seq<char>) {
    && ClosingTags(EncodeWith(text, stack)) == CloseCount(DropDangling(text, |stack|))
    && Tags(EncodeWith(text, stack))
       == CloseCount(DropDangling(text, |stack|)) + |OpenIds(text)| + (if Aligned(text) then 0 else 1)
  }

  /** The encoding of text without `<` that opens no region tagged `/`,
      from a stack without `<`, holds exactly the tags `TagCounts` names. */
  lemma {:induction false} EncodeTagCounts(text: string, stack: seq<char>)
    requires '<' !in text && '/' !in OpenIds(text) && '<' !in stack
    ensures ClosingTags(EncodeWith(text, stack)) == CloseCount(DropDangling(text, |stack|))
    ensures Tags(EncodeWith(text, stack))
         == CloseCount(DropDangling(text, |stack|)) + |OpenIds(text)| + (if Aligned(text) then 0 else 1)
    decreases |text|
  {
    if |text| == 0 {
    } else if text[0] != Delimiter {
      assert text[0] in text;
      assert forall k :: 0 <= k < |text[1..]| ==> text[1..][k] == text[k + 1];
      EncodeTagCounts(text[1..], stack);
      LiteralTags(text, stack);
    } else if |text| == 1 {
      UndefinedPiece();
    } else {
      var rest := text[2..];
      assert forall k :: 0 <= k < |rest| ==> rest[k] == text[k + 2];
      if text[1] == CloseMark {
        if |stack| == 0 {
          EncodeTagCounts(rest, stack);
        } else {
          var tail := stack[..|stack| - 1];
          assert stack[|stack| - 1] in stack;
          assert forall k :: 0 <= k < |tail| ==> tail[k] == stack[k];
          EncodeTagCounts(rest, tail);
          CloseTags(text, stack);
        }
      } else {
        var x := text[1];
        var grown := stack + [x];
        assert x in text;
        assert x in OpenIds(text);
        assert forall k :: 0 <= k < |grown| ==> grown[k] == if k < |stack| then stack[k] else x;
        EncodeTagCounts(rest, grown);
        OpenTags(text, stack);
      }
    }
  }

  /** `TagCounts` across a character other than the delimiter and `<`. */
  lemma LiteralTags(text: string, stack: seq<char>)
    requires |text| > 0 && text[0] != Delimiter && text[0] != '<'
    requires TagCounts(text[1..], stack)
    ensures TagCounts(text, stack)
  {
    var c := text[0];
    TagsCons(c, EncodeWith(text[1..], stack));
    if |text| > 1 {
      CloseCountLiteral(c, DropDangling(text[1..], |stack|));
    }
  }

  /** `TagCounts` across a close instruction that finds a region open. */
  lemma CloseTags(text: string, stack: seq<char>)
    requires |text| >= 2 && text[0] == Delimiter && text[1] == CloseMark
    requires |stack| > 0 && stack[|stack| - 1] != '<'
    requires TagCounts(text[2..], stack[..|stack| - 1])
    ensures TagCounts(text, stack)
  {
    var y := stack[|stack| - 1];
    var tail := stack[..|stack| - 1];
    var out := EncodeWith(text[2..], tail);
    assert "</" + [y] + ">" + out == ['<', '/', y, '>'] + out;
    TagsAppend(['<', '/', y, '>'], out);
    ClosingPiece(y);
    var d := DropDangling(text[2..], |tail|);
    assert ([Delimiter, CloseMark] + d)[2..] == d;
  }

  /** `TagCounts` across an open instruction for an identifier other than
      `/` and `<`. */
  lemma OpenTags(text: string, stack: seq<char>)
    requires |text| >= 2 && text[0] == Delimiter && text[1] != CloseMark
    requires text[1] != '/' && text[1] != '<'
    requires TagCounts(text[2..], stack + [text[1]])
    ensures TagCounts(text, stack)
  {
    var x := text[1];
    var out := EncodeWith(text[2..], stack + [x]);
    assert "<" + [x] + ">" + out == ['<', x, '>'] + out;
    TagsAppend(['<', x, '>'], out);
    TagPiece(x);
    var d := DropDangling(text[2..], |stack| + 1);
    assert ([Delimiter, x] + d)[2..] == d;
  }

  /** The encoding never closes more tags than it opens: for text without
      `<` that opens no region tagged `/`, its closing tags are at most the
      regions the text opens, and at most its other tags. */
  lemma EncodeClosesBounded(text: string)
    requires '<' !in text && '/' !in OpenIds(text)
    ensures ClosingTags(Encode(text)) <= |OpenIds(text)|
    ensures ClosingTags(Encode(text)) <= Tags(Encode(text)) - ClosingTags(Encode(text))
  {
    EncodeTagCounts(text, []);
    SurvivingClosesBounded(text, 0);
  }

  // ---------------------------------------------------------------------------
  // Properties of Decode and the round trip
  // ---------------------------------------------------------------------------

  /** A character other than `<` is copied and decoding goes on after it. */
  lemma DecodeLiteral(c: char, rest: string)
    requires c != '<'
    ensures Decode([c] + rest) == [c] + Decode(rest)
  {
    assert ([c] + rest)[1..] == rest;
  }

  /** `<`, `/` and any two more characters decode to `§!`: the closing
      identifier and the `>` are skipped without being looked at. */
  lemma DecodeClosingTag(y: char, gt: char, rest: string)
    ensures Decode(['<', '/', y, gt] + rest) == [Delimiter, CloseMark] + Decode(rest)
  {
    assert Drop(['<', '/', y, gt] + rest, 4) == rest;
  }

  /** `<`, an identifier other than `/` and any one more character decode to
      `§` and the identifier: the `>` is skipped without being looked at. */
  lemma DecodeOpeningTag(x: char, gt: char, rest: string)
    requires x != '/'
    ensures Decode(['<', x, gt] + rest) == [Delimiter, x] + Decode(rest)
  {
    assert Drop(['<', x, gt] + rest, 3) == rest;
  }

  /** Decoding an encoding gives back the text with its dangling closes
      removed, provided the text has no `<`, no lone trailing delimiter and
      opens no region tagged `/`. */
  lemma {:induction false} DecodeEncodeWith(text: string, stack: seq<char>)
    requires '<' !in text && Aligned(text) && '/' !in OpenIds(text)
    ensures Decode(EncodeWith(text, stack)) == DropDangling(text, |stack|)
    decreases |text|
  {
    if |text| == 0 {
    } else if text[0] != Delimiter {
      assert text[0] in text;
      assert forall k :: 0 <= k < |text[1..]| ==> text[1..][k] == text[k + 1];
      DecodeEncodeWith(text[1..], stack);
      DecodeLiteral(text[0], EncodeWith(text[1..], stack));
    } else {
      assert forall k :: 0 <= k < |text[2..]| ==> text[2..][k] == text[k + 2];
      if text[1] == CloseMark {
        if |stack| == 0 {
          DecodeEncodeWith(text[2..], stack);
        } else {
          var y := stack[|stack| - 1];
          var tail := stack[..|stack| - 1];
          DecodeEncodeWith(text[2..], tail);
          assert "</" + [y] + ">" + EncodeWith(text[2..], tail)
              == ['<', '/', y, '>'] + EncodeWith(text[2..], tail);
          DecodeClosingTag(y, '>', EncodeWith(text[2..], tail));
        }
      } else {
        var x := text[1];
        assert x in text;
        assert x in OpenIds(text);
        DecodeEncodeWith(text[2..], stack + [x]);
        assert "<" + [x] + ">" + EncodeWith(text[2..], stack + [x])
            == ['<', x, '>'] + EncodeWith(text[2..], stack + [x]);
        DecodeOpeningTag(x, '>', EncodeWith(text[2..], stack + [x]));
      }
    }
  }

  /** The round trip: text with no `<`, no lone trailing delimiter, no region
      tagged `/` and a matching open for every close decodes back from its
      encoding unchanged. */
  lemma RoundTrip(text: string)
    requires '<' !in text && Aligned(text) && '/' !in OpenIds(text)
    requires ClosesMatched(text, 0)
    ensures Decode(Encode(text)) == text
  {
    DecodeEncodeWith(text, []);
    DropDanglingIdentity(text, 0);
  }

  /** For text with no `<`, no lone trailing delimiter and no region tagged
      `/`, decoding the encoding loses exactly the dangling closes: it gives
      back a text in which every close finds an open, and it gives back the
      original exactly when the original had no dangling close. */
  lemma RoundTripDropsDangling(text: string)
    requires '<' !in text && Aligned(text) && '/' !in OpenIds(text)
    ensures Decode(Encode(text)) == DropDangling(text, 0)
    ensures ClosesMatched(Decode(Encode(text)), 0)
    ensures Decode(Encode(text)) == text <==> ClosesMatched(text, 0)
  {
    DecodeEncodeWith(text, []);
    DropDanglingMatches(text, 0);
    DropDanglingIdentity(text, 0);
  }
}
