/**
 * The shell's line tokenizer: a strsep loop over the delimiter set " \t\n"
 * that fills a fixed array of MAX_NUM_ARGUMENTS slots. Each strsep field
 * takes one slot, so an empty field (two delimiters in a row, a leading
 * delimiter, the text after the trailing newline) leaves an absent slot
 * behind; fields past the last slot are dropped.
 */
module Tokenizer {
  import opened Wrappers

  const MAX_COMMAND_SIZE: nat := 128
  const MAX_NUM_ARGUMENTS: nat := 10

  /** Membership in the delimiter set " \t\n". */
  predicate IsDelimiter(c: char) {
    c == ' ' || c == '\t' || c == '\n'
  }

  predicate NoDelimiter(s: string) {
    forall i :: 0 <= i < |s| ==> !IsDelimiter(s[i])
  }

  predicate AllDelimiters(ds: seq<char>) {
    forall i :: 0 <= i < |ds| ==> IsDelimiter(ds[i])
  }

  function Min(a: nat, b: nat): nat {
    if a <= b then a else b
  }

  /** Index of the first delimiter in s, or |s| when there is none. */
  function FirstDelimiter(s: string): (i: nat)
    ensures i <= |s|
    ensures NoDelimiter(s[..i])
    ensures i < |s| ==> IsDelimiter(s[i])
  {
    if s == [] || IsDelimiter(s[0]) then 0
    else
      var i := 1 + FirstDelimiter(s[1..]);
      assert s[..i] == [s[0]] + s[1..][..i - 1];
      i
  }

  /**
   * One call of strsep(&ws, " \t\n"): the field it returns and the new value
   * of working_string. A NULL working_string yields NULL; otherwise the
   * field runs up to the first delimiter, which is consumed, and working_string
   * becomes NULL when there was no delimiter left.
   */
  function StrSep(ws: Option<string>): (r: (Option<string>, Option<string>))
    ensures ws.None? ==> r == (None, None)
    ensures ws.Some? ==> r.0.Some? && NoDelimiter(r.0.value)
    ensures ws.Some? && r.1.None? ==> r.0.value == ws.value
    ensures ws.Some? && r.1.Some? ==>
      var f := r.0.value;
      |f| < |ws.value| && IsDelimiter(ws.value[|f|]) && ws.value == f + [ws.value[|f|]] + r.1.value
  {
    match ws
    case None => (None, None)
    case Some(s) =>
      var i := FirstDelimiter(s);
      if i == |s| then (Some(s), None)
      else
        assert s == s[..i] + [s[i]] + s[i + 1..];
        (Some(s[..i]), Some(s[i + 1..]))
  }

  /** Every field strsep would return from s, in order: one more than the delimiters. */
  function Fields(s: string): (fs: seq<string>)
    ensures |fs| >= 1
    decreases |s|
  {
    var i := FirstDelimiter(s);
    if i == |s| then [s] else [s[..i]] + Fields(s[i + 1..])
  }

  /** The delimiter characters of s, in order. */
  function DelimitersOf(s: string): (ds: seq<char>)
    ensures AllDelimiters(ds)
  {
    if s == [] then []
    else (if IsDelimiter(s[0]) then [s[0]] else []) + DelimitersOf(s[1..])
  }

  /** Fields glued back together, ds[k] between fields k and k+1. */
  function Join(fs: seq<string>, ds: seq<char>): string
    requires |fs| == |ds| + 1
    decreases |ds|
  {
    if ds == [] then fs[0] else fs[0] + [ds[0]] + Join(fs[1..], ds[1..])
  }

  /** What one field puts in its slot: strndup(field, MAX_COMMAND_SIZE), NULL when empty. */
  function Slot(field: string): (slot: Option<string>)
    ensures slot.None? <==> field == ""
    ensures slot.Some? ==> |slot.value| == Min(|field|, MAX_COMMAND_SIZE) && slot.value <= field
  {
    if |field| == 0 then None else Some(field[..Min(|field|, MAX_COMMAND_SIZE)])
  }

  /** token_count after the loop: one per field, at most MAX_NUM_ARGUMENTS. */
  function TokenCount(line: string): nat {
    Min(|Fields(line)|, MAX_NUM_ARGUMENTS)
  }

  /** The token[] array after the loop. */
  function TokenSlots(line: string): (slots: seq<Option<string>>)
    ensures |slots| == MAX_NUM_ARGUMENTS
  {
    var fs := Fields(line);
    seq(MAX_NUM_ARGUMENTS, k requires 0 <= k < MAX_NUM_ARGUMENTS =>
      if k < |fs| then Slot(fs[k]) else None)
  }

  /** The fields still to come from strsep, given its last result and working_string. */
  function Pending(arg: Option<string>, ws: Option<string>): seq<string> {
    match arg
    case None => []
    case Some(a) => [a] + (if ws.None? then [] else Fields(ws.value))
  }

  /**
   * The tokenizing loop: strsep is called before the slot count is checked,
   * each field is copied into the next slot (absent when empty), and the loop
   * stops at the end of the line or when all slots are used.
   */
  method Tokenize(line: string) returns (tokens: seq<Option<string>>, count: nat)
    ensures tokens == TokenSlots(line)
    ensures count == TokenCount(line)
  {
    var token := new Option<string>[MAX_NUM_ARGUMENTS](_ => None);
    ghost var fields := Fields(line);
    count := 0;
    var arg, ws := StrSep(Some(line)).0, StrSep(Some(line)).1;
    PendingAfterStrSep(Some(line));
    while arg.Some? && count < MAX_NUM_ARGUMENTS
      invariant count <= MAX_NUM_ARGUMENTS && count <= |fields|
      invariant fields[count..] == Pending(arg, ws)
      invariant forall k :: 0 <= k < count ==> token[k] == Slot(fields[k])
      invariant forall k :: count <= k < MAX_NUM_ARGUMENTS ==> token[k] == None
      decreases MAX_NUM_ARGUMENTS - count
    {
      PendingStep(fields, count, arg, ws);
      var slot := Slot(arg.value);
      assert slot == Slot(fields[count]);
      token[count] := slot;
      count := count + 1;
      arg, ws := StrSep(ws).0, StrSep(ws).1;
    }
    tokens := token[..];
    assert count == TokenCount(line);
    SlotsOfFields(tokens, line, count);
  }

  /** Slots filled field by field, and absent from token_count on, are the token[] array of the line. */
  lemma SlotsOfFields(tokens: seq<Option<string>>, line: string, count: nat)
    requires |tokens| == MAX_NUM_ARGUMENTS && count == TokenCount(line)
    requires forall k :: 0 <= k < count ==> tokens[k] == Slot(Fields(line)[k])
    requires forall k :: count <= k < MAX_NUM_ARGUMENTS ==> tokens[k] == None
    ensures tokens == TokenSlots(line)
  {
    var slots := TokenSlots(line);
    forall k | 0 <= k < MAX_NUM_ARGUMENTS
      ensures tokens[k] == slots[k]
    {
    }
  }

  /** The field strsep just returned is the next one, and the next call continues with the rest. */
  lemma PendingStep(fields: seq<string>, i: nat, arg: Option<string>, ws: Option<string>)
    requires i <= |fields| && fields[i..] == Pending(arg, ws) && arg.Some?
    ensures i < |fields| && fields[i] == arg.value
    ensures fields[i + 1..] == Pending(StrSep(ws).0, StrSep(ws).1)
  {
    assert fields[i..][0] == arg.value;
    assert fields[i + 1..] == fields[i..][1..];
    PendingAfterStrSep(ws);
  }

  /** strsep hands out exactly the fields of the text it is given, one per call. */
  lemma PendingAfterStrSep(ws: Option<string>)
    ensures Pending(StrSep(ws).0, StrSep(ws).1) == if ws.None? then [] else Fields(ws.value)
  {
  }

  /** No field contains a delimiter. */
  lemma {:induction false} FieldsHaveNoDelimiter(s: string)
    ensures forall k :: 0 <= k < |Fields(s)| ==> NoDelimiter(Fields(s)[k])
    decreases |s|
  {
    var i := FirstDelimiter(s);
    if i < |s| {
      FieldsHaveNoDelimiter(s[i + 1..]);
    }
  }

  /** No field is longer than the line it came from. */
  lemma {:induction false} FieldsAreShort(s: string)
    ensures forall k :: 0 <= k < |Fields(s)| ==> |Fields(s)[k]| <= |s|
    decreases |s|
  {
    var i := FirstDelimiter(s);
    if i < |s| {
      FieldsAreShort(s[i + 1..]);
    }
  }

  /** Fields and delimiters reassemble the line exactly; there is one more field than delimiters. */
  lemma {:induction false} FieldsReassemble(s: string)
    ensures |Fields(s)| == |DelimitersOf(s)| + 1
    ensures Join(Fields(s), DelimitersOf(s)) == s
    decreases |s|
  {
    var i := FirstDelimiter(s);
    if i == |s| {
      assert s[..i] == s;
      FieldsOfWord(s);
      DelimitersOfNone(s);
    } else {
      var head, d, tail := s[..i], s[i], s[i + 1..];
      assert s == head + [d] + tail;
      FieldsAfterDelimiter(head, d, tail);
      DelimitersAfterWord(head, d, tail);
      FieldsReassemble(tail);
      JoinCons(head, d, Fields(tail), DelimitersOf(tail));
    }
  }

  lemma JoinCons(f: string, d: char, fs: seq<string>, ds: seq<char>)
    requires |fs| == |ds| + 1
    ensures Join([f] + fs, [d] + ds) == f + [d] + Join(fs, ds)
  {
    assert ([f] + fs)[1..] == fs;
    assert ([d] + ds)[1..] == ds;
  }

  /** Text without a delimiter is a single field. */
  lemma FieldsOfWord(w: string)
    requires NoDelimiter(w)
    ensures Fields(w) == [w]
  {
    FirstDelimiterNone(w);
  }

  /** A word followed by a delimiter contributes that delimiter alone. */
  lemma DelimitersAfterWord(w: string, d: char, rest: string)
    requires NoDelimiter(w) && IsDelimiter(d)
    ensures DelimitersOf(w + [d] + rest) == [d] + DelimitersOf(rest)
  {
    assert w + [d] + rest == w + ([d] + rest);
    DelimitersOfConcat(w, [d] + rest);
    DelimitersOfNone(w);
    assert ([d] + rest)[1..] == rest;
  }

  /** Gluing delimiter-free fields with delimiters and splitting again gives them back. */
  lemma {:induction false} JoinSplits(fs: seq<string>, ds: seq<char>)
    requires |fs| == |ds| + 1
    requires forall k :: 0 <= k < |fs| ==> NoDelimiter(fs[k])
    requires AllDelimiters(ds)
    ensures Fields(Join(fs, ds)) == fs
    decreases |ds|
  {
    if ds == [] {
      FirstDelimiterNone(fs[0]);
      assert [fs[0]] == fs;
    } else {
      var rest := Join(fs[1..], ds[1..]);
      var s := fs[0] + ([ds[0]] + rest);
      assert Join(fs, ds) == s;
      FirstDelimiterConcat(fs[0], [ds[0]] + rest);
      FirstDelimiterNone(fs[0]);
      assert FirstDelimiter(s) == |fs[0]|;
      assert s[..|fs[0]|] == fs[0];
      assert s[|fs[0]| + 1..] == rest;
      JoinSplits(fs[1..], ds[1..]);
      assert fs == [fs[0]] + fs[1..];
    }
  }

  lemma {:induction false} FirstDelimiterNone(s: string)
    requires NoDelimiter(s)
    ensures FirstDelimiter(s) == |s|
  {
    if s != [] {
      FirstDelimiterNone(s[1..]);
    }
  }

  lemma {:induction false} FirstDelimiterConcat(s: string, t: string)
    ensures FirstDelimiter(s + t) ==
      if FirstDelimiter(s) < |s| then FirstDelimiter(s) else |s| + FirstDelimiter(t)
  {
    if s == [] {
      assert s + t == t;
    } else {
      assert (s + t)[1..] == s[1..] + t;
      FirstDelimiterConcat(s[1..], t);
    }
  }

  lemma {:induction false} DelimitersOfNone(s: string)
    requires NoDelimiter(s)
    ensures DelimitersOf(s) == []
  {
    if s != [] {
      DelimitersOfNone(s[1..]);
    }
  }

  lemma {:induction false} DelimitersOfConcat(s: string, t: string)
    ensures DelimitersOf(s + t) == DelimitersOf(s) + DelimitersOf(t)
  {
    if s == [] {
      assert s + t == t;
    } else {
      var st := s + t;
      var h: seq<char> := if IsDelimiter(s[0]) then [s[0]] else [];
      assert st[0] == s[0] && st[1..] == s[1..] + t;
      assert DelimitersOf(st) == h + DelimitersOf(s[1..] + t);
      assert DelimitersOf(s) == h + DelimitersOf(s[1..]);
      DelimitersOfConcat(s[1..], t);
    }
  }

  /**
   * Appending text to a line leaves every field but its last unchanged; the
   * last field absorbs the start of the appended text.
   */
  lemma {:induction false} FieldsOfAppend(s: string, t: string)
    ensures Fields(s + t) == AppendFields(Fields(s), Fields(t))
    decreases |s|
  {
    var i := FirstDelimiter(s);
    var fs, ft := Fields(s), Fields(t);
    if i == |s| {
      assert s[..i] == s;
      assert fs == [s];
      FieldsOfAppendToWord(s, t);
    } else {
      var tail := s[i + 1..];
      assert s[..i] + [s[i]] + (tail + t) == s + t;
      FieldsAfterDelimiter(s[..i], s[i], tail + t);
      FieldsOfAppend(tail, t);
      var fr := Fields(tail);
      assert fs == [s[..i]] + fr;
      AppendFieldsCons(s[..i], fr, ft);
    }
  }

  /** The fields of s + t, given those of s and of t: the two boundary fields merge. */
  function AppendFields(fs: seq<string>, ft: seq<string>): (r: seq<string>)
    requires |fs| >= 1 && |ft| >= 1
  {
    fs[..|fs| - 1] + [fs[|fs| - 1] + ft[0]] + ft[1..]
  }

  lemma AppendFieldsCons(w: string, fr: seq<string>, ft: seq<string>)
    requires |fr| >= 1 && |ft| >= 1
    ensures AppendFields([w] + fr, ft) == [w] + AppendFields(fr, ft)
  {
    var fs := [w] + fr;
    assert fs[..|fs| - 1] == [w] + fr[..|fr| - 1];
  }

  /** Text without a delimiter is glued onto the first field of what follows it. */
  lemma FieldsOfAppendToWord(s: string, t: string)
    requires NoDelimiter(s)
    ensures Fields(s + t) == [s + Fields(t)[0]] + Fields(t)[1..]
  {
    var j := FirstDelimiter(t);
    if j == |t| {
      assert t[..j] == t;
      NoDelimiterConcat(s, t);
      FieldsOfWord(t);
      FieldsOfWord(s + t);
    } else {
      var head, d, tail := t[..j], t[j], t[j + 1..];
      assert t == head + [d] + tail;
      assert s + t == (s + head) + [d] + tail;
      NoDelimiterConcat(s, head);
      FieldsAfterDelimiter(s + head, d, tail);
      FieldsAfterDelimiter(head, d, tail);
    }
  }

  lemma NoDelimiterConcat(s: string, t: string)
    requires NoDelimiter(s) && NoDelimiter(t)
    ensures NoDelimiter(s + t)
  {
    forall i | 0 <= i < |s + t| ensures !IsDelimiter((s + t)[i]) {
      if i < |s| {
        assert (s + t)[i] == s[i];
      } else {
        assert (s + t)[i] == t[i - |s|];
      }
    }
  }

  /** A word followed by a delimiter is a field of its own. */
  lemma FieldsAfterDelimiter(w: string, d: char, rest: string)
    requires NoDelimiter(w) && IsDelimiter(d)
    ensures Fields(w + [d] + rest) == [w] + Fields(rest)
  {
    var s := w + [d] + rest;
    assert s == w + ([d] + rest);
    FirstDelimiterConcat(w, [d] + rest);
    FirstDelimiterNone(w);
    assert s[..|w|] == w;
    assert s[|w| + 1..] == rest;
  }

  /**
   * Slot k holds the k-th field, absent when that field is empty; slots past
   * the fields are absent. For a line fgets can deliver (shorter than
   * MAX_COMMAND_SIZE) the strndup bound never cuts a field.
   */
  lemma TokenSlotIsField(line: string, k: nat)
    requires |line| < MAX_COMMAND_SIZE && k < MAX_NUM_ARGUMENTS
    ensures k < TokenCount(line) ==>
      TokenSlots(line)[k] == (if Fields(line)[k] == "" then None else Some(Fields(line)[k]))
    ensures k >= TokenCount(line) ==> TokenSlots(line)[k] == None
  {
    var fs := Fields(line);
    if k < |fs| {
      FieldsAreShort(line);
      var f := fs[k];
      assert Min(|f|, MAX_COMMAND_SIZE) == |f|;
      assert f[..|f|] == f;
      assert TokenSlots(line)[k] == Slot(f);
    }
  }

  /** The slots a list of fields fills when strndup cuts none of them. */
  function WordSlots(fs: seq<string>): (slots: seq<Option<string>>)
    ensures |slots| == MAX_NUM_ARGUMENTS
  {
    seq(MAX_NUM_ARGUMENTS, k requires 0 <= k < MAX_NUM_ARGUMENTS =>
      if k < |fs| && fs[k] != "" then Some(fs[k]) else None)
  }

  /**
   * A line built from delimiter-free fields fs, separated by the delimiters ds,
   * tokenizes to the first MAX_NUM_ARGUMENTS of those fields, each empty one
   * an absent slot.
   */
  lemma TokenSlotsOfJoin(fs: seq<string>, ds: seq<char>)
    requires |fs| == |ds| + 1
    requires forall k :: 0 <= k < |fs| ==> NoDelimiter(fs[k])
    requires AllDelimiters(ds)
    requires |Join(fs, ds)| < MAX_COMMAND_SIZE
    ensures TokenSlots(Join(fs, ds)) == WordSlots(fs)
    ensures TokenCount(Join(fs, ds)) == Min(|fs|, MAX_NUM_ARGUMENTS)
  {
    var line := Join(fs, ds);
    JoinSplits(fs, ds);
    forall k | 0 <= k < MAX_NUM_ARGUMENTS
      ensures TokenSlots(line)[k] == WordSlots(fs)[k]
    {
      TokenSlotIsField(line, k);
    }
  }

  /** A present slot holds a non-empty word with no delimiter in it. */
  lemma PresentSlotsAreWords(line: string, k: nat)
    requires k < MAX_NUM_ARGUMENTS && TokenSlots(line)[k].Some?
    ensures var w := TokenSlots(line)[k].value; |w| > 0 && NoDelimiter(w)
  {
    FieldsHaveNoDelimiter(line);
  }

  /** Once a line has more fields than slots, whatever follows it is dropped. */
  lemma ExtraFieldsAreDropped(line: string, more: string)
    requires |Fields(line)| > MAX_NUM_ARGUMENTS
    ensures TokenSlots(line + more) == TokenSlots(line)
    ensures TokenCount(line + more) == TokenCount(line) == MAX_NUM_ARGUMENTS
  {
    FieldsOfAppend(line, more);
    var fs := Fields(line);
    var fm := Fields(line + more);
    assert |fm| >= |fs|;
    assert forall k :: 0 <= k < MAX_NUM_ARGUMENTS ==> fm[k] == fs[k];
  }

  /** A line that starts with a delimiter leaves slot 0 absent. */
  lemma LeadingDelimiterEmptiesFirstSlot(line: string)
    requires |line| > 0 && IsDelimiter(line[0])
    ensures TokenSlots(line)[0] == None
  {
  }
}
