/** The managed block of the hosts file: src/hosts.rs. */
module Hosts {
  import opened Wrappers
  import opened Search
  import opened Strings
  import opened Targets

  const BEGIN_MARK: string := "# BEGIN nyasniproxy"

  const END_MARK: string := "# END nyasniproxy"

  // ---------------------------------------------------------------- rendering

  function NamesText(names: seq<string>): string {
    if names == [] then "" else NamesText(names[..|names| - 1]) + " " + names[|names| - 1]
  }

  function ManagedLines(ip: string, names: seq<string>, newline: string): string {
    if names == [] then newline else newline + ip + NamesText(names) + newline
  }

  function RenderedBlock(ip: string, names: seq<string>, newline: string): string {
    BEGIN_MARK + ManagedLines(ip, names, newline) + END_MARK + newline
  }

  lemma NamesTextOfSnoc(names: seq<string>, i: nat)
    requires i < |names|
    ensures NamesText(names[..i + 1]) == NamesText(names[..i]) + " " + names[i]
  {
    assert names[..i + 1][..i] == names[..i];
  }

  lemma HeadedLines(mark: string, newline: string, ip: string, text: string)
    ensures mark + newline + ip + text + newline == mark + (newline + ip + text + newline)
  {
  }

  method RenderBlock(ip: string, names: seq<string>, newline: string) returns (block: string)
    ensures block == RenderedBlock(ip, names, newline)
  {
    block := BEGIN_MARK;
    block := block + newline;
    ghost var headed := block;
    if names != [] {
      block := block + ip;
      headed := block;
      var i := 0;
      while i < |names|
        invariant 0 <= i <= |names|
        invariant block == headed + NamesText(names[..i])
      {
        block := block + " ";
        block := block + names[i];
        NamesTextOfSnoc(names, i);
        Regroup(headed, NamesText(names[..i]) + " ", names[i]);
        i := i + 1;
      }
      assert names[..i] == names;
      block := block + newline;
      HeadedLines(BEGIN_MARK, newline, ip, NamesText(names));
    }
    block := block + END_MARK;
    block := block + newline;
  }

  // ---------------------------------------------------------------- replacing

  function SkipEol(text: string, offset: nat): (after: nat)
    requires offset <= |text|
    ensures offset <= after <= |text|
  {
    if offset + 1 < |text| && text[offset] == '\r' && text[offset + 1] == '\n' then offset + 2
    else if offset < |text| && text[offset] == '\n' then offset + 1
    else offset
  }

  predicate EndsLine(text: string) {
    text != "" && text[|text| - 1] == '\n'
  }

  predicate HasCrlf(text: string) {
    Find(text, "\r\n").Some?
  }

  function Newline(text: string): string {
    if HasCrlf(text) then "\r\n" else "\n"
  }

  method Splice(original: string, start: nat, after: nat, block: string) returns (out: string)
    requires start <= |original| && after <= |original|
    ensures out == original[..start] + block + (if EndsLine(block) then "" else "\n") + original[after..]
  {
    out := original[..start];
    out := out + block;
    if !EndsLine(block) {
      out := out + "\n";
    }
    out := out + original[after..];
  }

  /** What is put between the end of the text and an appended block. */
  function Gap(original: string): string {
    if original == "" then ""
    else (if EndsLine(original) then "" else "\n") + Newline(original)
  }

  method AppendBlock(original: string, block: string) returns (out: string)
    ensures out == original + Gap(original) + block + if EndsLine(block) then "" else "\n"
  {
    out := original;
    if out != "" && !EndsLine(out) {
      out := out + "\n";
    }
    if out != "" {
      var newline := if HasCrlf(original) then "\r\n" else "\n";
      out := out + newline;
    }
    assert out == original + Gap(original);
    out := out + block;
    if !EndsLine(block) {
      out := out + "\n";
    }
  }

  /** The text kept before the block. */
  function Before(original: string): string {
    match Find(original, BEGIN_MARK)
    case Some(start) => original[..start]
    case None => original + Gap(original)
  }

  /** The text kept after the block. */
  function After(original: string): string {
    match (Find(original, BEGIN_MARK), Find(original, END_MARK))
    case (Some(start), Some(end)) =>
      if end > start then original[SkipEol(original, end + |END_MARK|)..] else ""
    case _ => ""
  }

  function Replaced(original: string, block: string): string {
    Before(original) + block + (if EndsLine(block) then "" else "\n") + After(original)
  }

  method ReplaceManagedBlock(original: string, block: string) returns (out: string)
    ensures out == Replaced(original, block)
  {
    hide FindFrom, EndsLine;
    var begin, end := Find(original, BEGIN_MARK), Find(original, END_MARK);
    if begin.Some? && end.Some? && end.value > begin.value {
      var after := SkipEol(original, end.value + |END_MARK|);
      out := Splice(original, begin.value, after, block);
      assert Before(original) == original[..begin.value] && After(original) == original[after..];
    } else if begin.Some? {
      out := Splice(original, begin.value, |original|, block);
      assert Before(original) == original[..begin.value] && After(original) == "";
    } else {
      out := AppendBlock(original, block);
      assert Before(original) == original + Gap(original) && After(original) == "";
    }
  }

  /** The text `sync_hosts` leaves behind. */
  function Synced(original: string, ip: string, names: seq<string>): string {
    Replaced(original, RenderedBlock(ip, names, Newline(original)))
  }

  /** `sync_hosts` without the file: the new text, when it differs. */
  method SyncHosts(original: string, ip: string, names: seq<string>) returns (updated: Option<string>)
    ensures updated == if Synced(original, ip, names) == original then None else Some(Synced(original, ip, names))
  {
    var newline := if HasCrlf(original) then "\r\n" else "\n";
    var block := RenderBlock(ip, names, newline);
    var text := ReplaceManagedBlock(original, block);
    updated := if text == original then None else Some(text);
  }

  // ---------------------------------------------------------------- where the marks are

  predicate IsNewline(newline: string) {
    newline == "\n" || newline == "\r\n"
  }

  /** A block around some text without `#`. */
  function Block(body: string, newline: string): string {
    BEGIN_MARK + body + END_MARK + newline
  }

  lemma BeginMarkFacts()
    ensures Unbordered(BEGIN_MARK) && BEGIN_MARK[0] == '#' && |BEGIN_MARK| == 19 && BEGIN_MARK[2] == 'B'
  {
    assert BEGIN_MARK[1..] == " BEGIN nyasniproxy";
  }

  lemma EndMarkFacts()
    ensures Unbordered(END_MARK) && END_MARK[0] == '#' && |END_MARK| == 17 && END_MARK[2] == 'E'
  {
    assert END_MARK[1..] == " END nyasniproxy";
  }

  lemma MarkFacts()
    ensures Unbordered(BEGIN_MARK) && BEGIN_MARK[0] == '#' && |BEGIN_MARK| == 19 && BEGIN_MARK[2] == 'B'
    ensures Unbordered(END_MARK) && END_MARK[0] == '#' && |END_MARK| == 17 && END_MARK[2] == 'E'
  {
    BeginMarkFacts();
    EndMarkFacts();
  }

  lemma MarksAreOneLine()
    ensures '\n' !in BEGIN_MARK && '\r' !in BEGIN_MARK && '\n' !in END_MARK && '\r' !in END_MARK
  {
  }

  lemma CharOfMark(s: string, mark: string, i: int, k: nat)
    requires At(s, mark, i) && k < |mark|
    ensures s[i + k] == mark[k]
  {
    assert s[i..i + |mark|][k] == s[i + k];
  }

  lemma NoEndInOpening(body: string)
    requires '#' !in body
    ensures Lacks(BEGIN_MARK + body, END_MARK)
  {
    MarkFacts();
    var s := BEGIN_MARK + body;
    assert forall i :: 0 < i < |s| ==> s[i] != '#' by {
      assert forall i :: 0 < i < 19 ==> BEGIN_MARK[i] == BEGIN_MARK[1..][i - 1];
    }
    forall i
      ensures !At(s, END_MARK, i)
    {
      if At(s, END_MARK, i) {
        CharOfMark(s, END_MARK, i, 0);
        CharOfMark(s, END_MARK, i, 2);
      }
    }
  }

  /** The first end mark of `pre + opening + end + tail`. */
  lemma EndAfterOpening(pre: string, opening: string, end: string, tail: string)
    requires Unbordered(end) && opening != "" && opening[0] == end[0] && Lacks(opening, end)
    ensures Find(pre + opening + end + tail, end) ==
      if Find(pre, end).Some? then Find(pre, end) else Some(|pre| + |opening|)
  {
    if Find(pre, end).Some? {
      assert pre + opening + end + tail == pre + (opening + end + tail);
      FindStable(pre, opening + end + tail, end);
    } else {
      LacksAcross(pre, opening, end);
      FirstAfter(pre + opening, end, tail);
    }
  }

  lemma BlockFromEnd(pre: string, body: string, newline: string, post: string)
    ensures pre + Block(body, newline) + post == pre + (BEGIN_MARK + body) + END_MARK + (newline + post)
  {
  }

  lemma FromMark(pre: string, begin: string, body: string, end: string, newline: string, post: string)
    ensures pre + (begin + body + end + newline) + post == pre + begin + (body + end + newline + post)
  {
  }

  lemma BeginOfBlock(begin: string, end: string, pre: string, body: string, newline: string, post: string)
    requires Unbordered(begin) && Lacks(pre, begin)
    ensures Find(pre + (begin + body + end + newline) + post, begin) == Some(|pre|)
  {
    FromMark(pre, begin, body, end, newline, post);
    FirstAfter(pre, begin, body + end + newline + post);
  }

  lemma FromEndMark(pre: string, opening: string, end: string, newline: string, post: string)
    ensures pre + (opening + end + newline) + post == pre + opening + end + (newline + post)
  {
  }

  lemma EndOfBlock(opening: string, end: string, pre: string, newline: string, post: string)
    requires Unbordered(end) && opening != "" && opening[0] == end[0] && Lacks(opening, end)
    ensures Find(pre + (opening + end + newline) + post, end)
         == if Find(pre, end).Some? then Find(pre, end) else Some(|pre| + |opening|)
  {
    FromEndMark(pre, opening, end, newline, post);
    EndAfterOpening(pre, opening, end, newline + post);
  }

  /** The marks of a text that has a block after some text without a begin mark. */
  lemma MarksOfBlock(pre: string, body: string, newline: string, post: string)
    requires Lacks(pre, BEGIN_MARK) && '#' !in body
    ensures Find(pre + Block(body, newline) + post, BEGIN_MARK) == Some(|pre|)
    ensures Find(pre + Block(body, newline) + post, END_MARK) ==
      if Find(pre, END_MARK).Some? then Find(pre, END_MARK) else Some(|pre| + |BEGIN_MARK + body|)
  {
    MarkFacts();
    NoEndInOpening(body);
    BeginOfBlock(BEGIN_MARK, END_MARK, pre, body, newline, post);
    EndOfBlock(BEGIN_MARK + body, END_MARK, pre, newline, post);
  }

  lemma NewlineIsSkipped(head: string, newline: string, post: string)
    requires IsNewline(newline)
    ensures SkipEol(head + newline + post, |head|) == |head| + |newline|
  {
    var rest := (head + newline + post)[|head|..];
    assert rest == newline + post;
    assert rest[0] == newline[0];
    assert newline == "\r\n" ==> rest[..2] == "\r\n";
    assert newline == "\n" ==> rest[..1] == "\n";
  }

  lemma AfterBlock(pre: string, body: string, newline: string, post: string)
    requires IsNewline(newline)
    ensures var t := pre + Block(body, newline) + post;
      var end := |pre| + |BEGIN_MARK + body| + |END_MARK|;
      end <= |t| && t[SkipEol(t, end)..] == post
  {
    var head := pre + (BEGIN_MARK + body) + END_MARK;
    BlockFromEnd(pre, body, newline, post);
    assert head + (newline + post) == head + newline + post;
    NewlineIsSkipped(head, newline, post);
  }

  lemma PartsOfBlock(pre: string, body: string, newline: string, post: string)
    requires Lacks(pre, BEGIN_MARK) && '#' !in body && IsNewline(newline)
    ensures Before(pre + Block(body, newline) + post) == pre
    ensures After(pre + Block(body, newline) + post) == if Find(pre, END_MARK).Some? then "" else post
  {
    MarksOfBlock(pre, body, newline, post);
    AfterBlock(pre, body, newline, post);
  }

  lemma GapHasNoHash(original: string)
    requires Lacks(original, BEGIN_MARK)
    ensures Lacks(original + Gap(original), BEGIN_MARK)
  {
    MarkFacts();
    var gap := Gap(original);
    assert forall i :: 0 <= i < |gap| ==> gap[i] == '\n' || gap[i] == '\r';
    assert |gap| < |BEGIN_MARK|;
    LacksAcross(original, gap, BEGIN_MARK);
  }

  /** What is kept before the block has no begin mark, and when it has an end mark nothing is
      kept after the block. */
  lemma KeptParts(original: string)
    ensures Lacks(Before(original), BEGIN_MARK)
    ensures Find(Before(original), END_MARK).Some? ==> After(original) == ""
  {
    MarkFacts();
    var begin, end := Find(original, BEGIN_MARK), Find(original, END_MARK);
    if begin.Some? {
      LacksBeforeFirst(original, BEGIN_MARK, begin.value);
      if end.Some? && end.value > begin.value {
        LacksPart(original, END_MARK, 0, begin.value);
      }
    } else {
      GapHasNoHash(original);
    }
  }

  predicate CleanText(s: string) {
    '#' !in s && '\r' !in s && '\n' !in s && ' ' !in s
  }

  predicate CleanNames(names: seq<string>) {
    forall i :: 0 <= i < |names| ==> CleanText(names[i])
  }

  lemma HostnamesAreClean(name: string)
    requires IsValidHostname(name)
    ensures CleanText(name)
  {
    HostnamesAreDottedLabels(name);
  }

  lemma {:induction false} NamesTextIsClean(names: seq<string>)
    requires CleanNames(names)
    ensures '#' !in NamesText(names) && '\r' !in NamesText(names) && '\n' !in NamesText(names)
    decreases |names|
  {
    if names != [] {
      NamesTextIsClean(names[..|names| - 1]);
    }
  }

  lemma RenderedIsBlock(ip: string, names: seq<string>, newline: string)
    requires CleanText(ip) && CleanNames(names) && IsNewline(newline)
    ensures '#' !in ManagedLines(ip, names, newline)
    ensures RenderedBlock(ip, names, newline) == Block(ManagedLines(ip, names, newline), newline)
    ensures EndsLine(RenderedBlock(ip, names, newline))
  {
    NamesTextIsClean(names);
  }

  // ---------------------------------------------------------------- absorption

  lemma ReplacedBlock(original: string, body: string, newline: string)
    requires '#' !in body && IsNewline(newline)
    ensures Replaced(original, Block(body, newline)) == Before(original) + Block(body, newline) + After(original)
    ensures Before(Replaced(original, Block(body, newline))) == Before(original)
    ensures After(Replaced(original, Block(body, newline))) == After(original)
  {
    var block := Block(body, newline);
    assert EndsLine(block);
    assert Before(original) + block + "" == Before(original) + block;
    KeptParts(original);
    PartsOfBlock(Before(original), body, newline, After(original));
  }

  /** Absorption: a later block replaces an earlier one without a trace, in every layout of
      marks: none, begin only, end only, end before begin, or a proper pair. */
  lemma LaterBlockAbsorbsEarlier(original: string, ip1: string, names1: seq<string>, nl1: string, block2: string)
    requires CleanText(ip1) && CleanNames(names1) && IsNewline(nl1)
    ensures Replaced(Replaced(original, RenderedBlock(ip1, names1, nl1)), block2) == Replaced(original, block2)
  {
    RenderedIsBlock(ip1, names1, nl1);
    ReplacedBlock(original, ManagedLines(ip1, names1, nl1), nl1);
  }

  // ---------------------------------------------------------------- the rest of the file

  /** The text that follows the block in the file: the block ends with the line of the first end
      mark after its begin mark, and an unclosed block is no more than its begin mark's line. */
  function RestAfter(original: string): string {
    match Find(original, BEGIN_MARK)
    case None => ""
    case Some(start) =>
      match FindFrom(original, END_MARK, start)
      case Some(end) => original[SkipEol(original, end + |END_MARK|)..]
      case None => original[SkipEol(original, start + |BEGIN_MARK|)..]
  }

  /** The begin mark of the block: the one nearest the end mark that closes it. */
  function BlockStart(original: string): Option<nat> {
    match Find(original, BEGIN_MARK)
    case None => None
    case Some(start) =>
      match FindFrom(original, END_MARK, start)
      case Some(end) => LastBefore(original, BEGIN_MARK, end)
      case None => Some(start)
  }

  /** The text that precedes the block in the file. */
  function RestBefore(original: string): string {
    match BlockStart(original)
    case None => Before(original)
    case Some(start) => original[..start]
  }

  /** Another begin mark comes before the block's own. */
  predicate StrayBegin(original: string) {
    BlockStart(original) != Find(original, BEGIN_MARK)
  }

  /** An end mark comes before the first begin mark. */
  predicate StrayEnd(original: string) {
    Find(original, BEGIN_MARK).Some? && Find(original, END_MARK).Some?
    && Find(original, END_MARK).value < Find(original, BEGIN_MARK).value
  }

  /** No end mark comes after the first begin mark. */
  predicate Unclosed(original: string) {
    match Find(original, BEGIN_MARK)
    case None => false
    case Some(start) => FindFrom(original, END_MARK, start).None?
  }

  lemma MarksDiffer(s: string, i: nat, j: nat)
    requires At(s, BEGIN_MARK, i) && At(s, END_MARK, j)
    ensures i != j
  {
    MarkFacts();
    CharOfMark(s, BEGIN_MARK, i, 2);
    CharOfMark(s, END_MARK, j, 2);
  }

  lemma LaterSearchAgrees(s: string, p: string, i: nat)
    requires i <= |s|
    ensures Find(s, p).None? ==> FindFrom(s, p, i).None?
    ensures Find(s, p).Some? && i <= Find(s, p).value ==> FindFrom(s, p, i) == Find(s, p)
  {
    var first, later := Find(s, p), FindFrom(s, p, i);
    if first.Some? && i <= first.value {
      assert At(s, p, first.value);
    }
  }

  lemma ProperPairKeepsRest(original: string)
    requires Find(original, BEGIN_MARK).Some? && Find(original, END_MARK).Some?
    requires Find(original, END_MARK).value > Find(original, BEGIN_MARK).value
    ensures After(original) == RestAfter(original) && !Unclosed(original) && !StrayEnd(original)
  {
    hide FindFrom, At;
    LaterSearchAgrees(original, END_MARK, Find(original, BEGIN_MARK).value);
  }

  lemma OtherwiseNothingIsKept(original: string)
    requires Find(original, BEGIN_MARK).Some?
    requires Find(original, END_MARK).Some? ==> Find(original, END_MARK).value < Find(original, BEGIN_MARK).value
    ensures After(original) == "" && (Unclosed(original) || StrayEnd(original))
  {
    hide FindFrom, At;
    if Find(original, END_MARK).None? {
      LaterSearchAgrees(original, END_MARK, Find(original, BEGIN_MARK).value);
    }
  }

  /** What follows the block is kept exactly when it is empty or the block is closed and no
      stray end mark precedes it. */
  lemma AfterIsKeptExactly(original: string)
    ensures After(original) == RestAfter(original) <==>
            RestAfter(original) == "" || !(StrayEnd(original) || Unclosed(original))
    ensures StrayEnd(original) || Unclosed(original) ==> After(original) == ""
  {
    hide FindFrom, At;
    var begin, end := Find(original, BEGIN_MARK), Find(original, END_MARK);
    if begin.Some? {
      if end.Some? {
        MarksDiffer(original, begin.value, end.value);
      }
      if end.Some? && end.value > begin.value {
        ProperPairKeepsRest(original);
      } else {
        OtherwiseNothingIsKept(original);
      }
    }
  }

  lemma BlockStartsAtBegin(original: string)
    ensures match Find(original, BEGIN_MARK)
      case None => BlockStart(original).None?
      case Some(start) => BlockStart(original).Some? && start <= BlockStart(original).value <= |original|
  {
    hide FindFrom, LastBefore;
    if Find(original, BEGIN_MARK).Some? {
      var start := Find(original, BEGIN_MARK).value;
      var end := FindFrom(original, END_MARK, start);
      if end.Some? {
        assert At(original, BEGIN_MARK, start) && At(original, END_MARK, end.value);
        MarksDiffer(original, start, end.value);
        assert LastBefore(original, BEGIN_MARK, end.value).Some?;
      }
    }
  }

  /** What precedes the block is kept exactly when no other begin mark does. */
  lemma BeforeIsKeptExactly(original: string)
    ensures Before(original) <= RestBefore(original)
    ensures Before(original) == RestBefore(original) <==> !StrayBegin(original)
  {
    hide FindFrom, At, BlockStart;
    BlockStartsAtBegin(original);
    var start := Find(original, BEGIN_MARK);
    if start.Some? {
      assert original[..BlockStart(original).value][..start.value] == original[..start.value];
    }
  }

  lemma SameTail(kept: string, a: string, b: string)
    ensures kept + a == kept + b <==> a == b
  {
    assert (kept + a)[|kept|..] == a && (kept + b)[|kept|..] == b;
  }

  lemma SameEnds(a: string, b: string, block: string, x: string, y: string)
    requires a <= b && (x == y || x == "")
    ensures a + block + x == b + block + y <==> a == b && x == y
  {
    if a == b {
      SameTail(a + block, x, y);
    } else {
      assert |a + block + x| < |b + block + y|;
    }
  }

  /** The rest of the file is left unchanged, as documented, exactly when no begin mark strays
      before the block and, unless nothing follows the block, it is closed and no end mark strays
      before it. A stray begin mark drops the text between it and the block; a stray end mark, or
      a block left unclosed, drops all that follows. Without a begin mark nothing is dropped, and
      what precedes the first begin mark always stays. */
  lemma RestIsKeptExactly(original: string, block: string)
    ensures var written := block + if EndsLine(block) then "" else "\n";
      && (Replaced(original, block) == RestBefore(original) + written + RestAfter(original) <==>
            && !StrayBegin(original)
            && (RestAfter(original) == "" || !(StrayEnd(original) || Unclosed(original))))
      && Replaced(original, block) == Before(original) + written
           + if StrayEnd(original) || Unclosed(original) then "" else RestAfter(original)
    ensures Find(original, BEGIN_MARK).None? ==> original <= Before(original)
    ensures Find(original, BEGIN_MARK).Some? ==> Before(original) == original[..Find(original, BEGIN_MARK).value]
  {
    hide FindFrom, At, RestAfter, After, RestBefore, StrayBegin;
    AfterIsKeptExactly(original);
    BeforeIsKeptExactly(original);
    var newline := if EndsLine(block) then "" else "\n";
    Regroup(Before(original), block, newline);
    SameEnds(Before(original), RestBefore(original), block + newline, After(original), RestAfter(original));
  }

  // ---------------------------------------------------------------- layouts that drop text

  lemma EndLineHasNoBegin()
    ensures Lacks(END_MARK + "\n", BEGIN_MARK) && Find(END_MARK + "\n", END_MARK) == Some(0)
  {
    MarkFacts();
    var s := END_MARK + "\n";
    assert |s| < |BEGIN_MARK|;
    assert s[0..17] == END_MARK;
    FindIs(s, END_MARK, 0);
  }

  lemma FirstFrom(s: string, p: string, i: nat, n: nat)
    requires i <= n <= |s| && At(s, p, n) && forall j :: i <= j < n ==> !At(s, p, j)
    ensures FindFrom(s, p, i) == Some(n)
  {
    assert FindFrom(s, p, i).Some?;
  }

  lemma LaterEnd(pre: string, opening: string, end: string, more: string)
    requires Unbordered(end) && Lacks(opening, end)
    ensures FindFrom(pre + (opening + end + more), end, |pre|) == Some(|pre| + |opening|)
  {
    hide FindFrom, At;
    var t := opening + end + more;
    FirstAfter(opening, end, more);
    forall j | |pre| <= j <= |pre| + |opening|
      ensures At(pre + t, end, j) <==> j == |pre| + |opening|
    {
      AtSuffix(pre, t, end, j);
    }
    FirstFrom(pre + t, end, |pre|, |pre| + |opening|);
  }

  lemma FromPre(pre: string, opening: string, end: string, newline: string, post: string)
    ensures pre + (opening + end + newline) + post == pre + (opening + end + (newline + post))
  {
  }

  /** The first end mark from the begin mark on is the block's own. */
  lemma LaterEndOfBlock(pre: string, body: string, newline: string, post: string)
    requires '#' !in body
    ensures FindFrom(pre + Block(body, newline) + post, END_MARK, |pre|) == Some(|pre| + |BEGIN_MARK + body|)
  {
    MarkFacts();
    NoEndInOpening(body);
    FromPre(pre, BEGIN_MARK + body, END_MARK, newline, post);
    LaterEnd(pre, BEGIN_MARK + body, END_MARK, newline + post);
  }

  lemma StrayMarks(pre: string, post: string)
    requires Lacks(pre, BEGIN_MARK) && Find(pre, END_MARK) == Some(0) && |pre| > 0
    ensures var original := pre + Block("\n", "\n") + post;
      && StrayEnd(original) && !Unclosed(original) && RestAfter(original) == post
      && Before(original) == pre && After(original) == ""
  {
    hide At;
    MarksOfBlock(pre, "\n", "\n", post);
    PartsOfBlock(pre, "\n", "\n", post);
    AfterBlock(pre, "\n", "\n", post);
    LaterEndOfBlock(pre, "\n", "\n", post);
  }

  /** A line of one's own after a block, with an end mark before it: the line is dropped. */
  lemma StrayEndDropsALine(block: string)
    ensures var original := END_MARK + "\n" + Block("\n", "\n") + "1.2.3.4 mine\n";
      && StrayEnd(original) && !Unclosed(original) && RestAfter(original) == "1.2.3.4 mine\n"
      && Replaced(original, block) == END_MARK + "\n" + block + if EndsLine(block) then "" else "\n"
  {
    hide FindFrom, At;
    var pre := END_MARK + "\n";
    EndLineHasNoBegin();
    StrayMarks(pre, "1.2.3.4 mine\n");
    var front := pre + block + (if EndsLine(block) then "" else "\n");
    assert front + "" == front;
  }

  /** A line of one's own after an unclosed block is dropped too. */
  lemma UnclosedBlockDropsALine(block: string)
    ensures var original := BEGIN_MARK + "\n1.2.3.4 mine\n";
      && Unclosed(original) && !StrayEnd(original) && RestAfter(original) == "1.2.3.4 mine\n"
      && Replaced(original, block) == block + if EndsLine(block) then "" else "\n"
  {
    hide FindFrom;
    var body := "\n1.2.3.4 mine\n";
    var original := BEGIN_MARK + body;
    MarkFacts();
    NoEndInOpening(body);
    assert original[0..19] == BEGIN_MARK;
    FindIs(original, BEGIN_MARK, 0);
    LaterSearchAgrees(original, END_MARK, 0);
    assert original[19] == '\n' && original[20] == '1';
    assert original[20..] == "1.2.3.4 mine\n";
    assert original[..0] == "";
    var front := block + (if EndsLine(block) then "" else "\n");
    assert "" + block + (if EndsLine(block) then "" else "\n") + "" == front;
  }

  lemma LastIs(s: string, p: string, i: nat, n: nat)
    requires n < i <= |s| && At(s, p, n) && forall j :: n < j < i ==> !At(s, p, j)
    ensures LastBefore(s, p, i) == Some(n)
  {
    hide LastBefore;
    assert LastBefore(s, p, i).Some?;
  }

  lemma NoHashInside(t: string, n: nat)
    requires At(t, BEGIN_MARK, n) && n + 19 < |t| && t[n + 19] == '\n'
    ensures forall j :: n < j < n + 20 ==> t[j] != '#'
  {
    BeginMarkFacts();
    assert forall k :: 0 < k < 19 ==> BEGIN_MARK[k] == BEGIN_MARK[1..][k - 1];
    assert forall j :: n < j < n + 19 ==> t[j] == t[n..n + 19][j - n];
  }

  /** The block's own begin mark is the nearest before its end mark. */
  lemma BlockStartOfBlock(pre: string, post: string)
    ensures LastBefore(pre + Block("\n", "\n") + post, BEGIN_MARK, |pre| + 20) == Some(|pre|)
  {
    hide LastBefore;
    BeginMarkFacts();
    var t, n := pre + Block("\n", "\n") + post, |pre|;
    FromMark(pre, BEGIN_MARK, "\n", END_MARK, "\n", post);
    assert t[n..n + 19] == BEGIN_MARK && t[n + 19] == '\n';
    NoHashInside(t, n);
    forall j | n < j < n + 20
      ensures !At(t, BEGIN_MARK, j)
    {
      if At(t, BEGIN_MARK, j) {
        CharOfMark(t, BEGIN_MARK, j, 0);
      }
    }
    LastIs(t, BEGIN_MARK, n + 20, n);
  }

  lemma QuotedLacksEnd(pre: string, mid: string)
    requires Lacks(pre, BEGIN_MARK) && Lacks(pre, END_MARK) && '#' !in mid
    ensures Lacks(pre + BEGIN_MARK + mid, END_MARK) && Find(pre + BEGIN_MARK + mid, BEGIN_MARK) == Some(|pre|)
  {
    hide At, FindFrom;
    MarkFacts();
    NoEndInOpening(mid);
    LacksAcross(pre, BEGIN_MARK + mid, END_MARK);
    Regroup(pre, BEGIN_MARK, mid);
    FirstAfter(pre, BEGIN_MARK, mid);
  }

  /** The marks of a text that quotes the begin mark before a block. */
  lemma QuotedMarks(pre: string, mid: string, post: string)
    requires Lacks(pre, BEGIN_MARK) && Lacks(pre, END_MARK) && '#' !in mid
    ensures var quoted := pre + BEGIN_MARK + mid;
      var original := quoted + Block("\n", "\n") + post;
      && Find(original, BEGIN_MARK) == Some(|pre|)
      && Find(original, END_MARK) == Some(|quoted| + 20) == FindFrom(original, END_MARK, |pre|)
  {
    hide At, FindFrom;
    var quoted := pre + BEGIN_MARK + mid;
    MarkFacts();
    QuotedLacksEnd(pre, mid);
    Regroup(quoted, Block("\n", "\n"), post);
    FindStable(quoted, Block("\n", "\n") + post, BEGIN_MARK);
    NoEndInOpening("\n");
    EndOfBlock(BEGIN_MARK + "\n", END_MARK, quoted, "\n", post);
    LaterSearchAgrees(quoted + Block("\n", "\n") + post, END_MARK, |pre|);
  }

  /** Any text between a quoted begin mark and the block is dropped. */
  lemma QuotedBeginDropsText(pre: string, mid: string, post: string, block: string)
    requires Lacks(pre, BEGIN_MARK) && Lacks(pre, END_MARK) && '#' !in mid
    ensures var quoted := pre + BEGIN_MARK + mid;
      var original := quoted + Block("\n", "\n") + post;
      && StrayBegin(original) && !StrayEnd(original) && !Unclosed(original)
      && RestBefore(original) == quoted && RestAfter(original) == post
      && Replaced(original, block) == pre + block + (if EndsLine(block) then "" else "\n") + post
  {
    hide FindFrom, At, LastBefore, SkipEol;
    var quoted := pre + BEGIN_MARK + mid;
    var original := quoted + Block("\n", "\n") + post;
    QuotedMarks(pre, mid, post);
    BlockStartOfBlock(quoted, post);
    AfterBlock(quoted, "\n", "\n", post);
    assert original[..|quoted|] == quoted && quoted[..|pre|] == pre;
    assert original[..|pre|] == pre;
  }

  lemma ShortLacksMarks(s: string)
    requires |s| < 17
    ensures Lacks(s, BEGIN_MARK) && Lacks(s, END_MARK)
  {
    MarkFacts();
  }

  lemma NothingFollows(s: string)
    ensures s + "" == s
  {
  }

  /** A line of one's own between a comment that quotes the begin mark and the block is dropped. */
  lemma StrayBeginDropsALine(block: string)
    ensures var original := "# " + BEGIN_MARK + " starts a block\n1.2.3.4 mine\n" + Block("\n", "\n");
      && StrayBegin(original) && !StrayEnd(original) && !Unclosed(original) && RestAfter(original) == ""
      && RestBefore(original) == "# " + BEGIN_MARK + " starts a block\n1.2.3.4 mine\n"
      && Replaced(original, block) == "# " + block + if EndsLine(block) then "" else "\n"
  {
    hide FindFrom, At, LastBefore, SkipEol, Replaced, RestBefore, RestAfter, StrayBegin, StrayEnd, Unclosed;
    var pre, mid := "# ", " starts a block\n1.2.3.4 mine\n";
    ShortLacksMarks(pre);
    NothingFollows(pre + BEGIN_MARK + mid + Block("\n", "\n"));
    NothingFollows(pre + block + if EndsLine(block) then "" else "\n");
    QuotedBeginDropsText(pre, mid, "", block);
  }

  // ---------------------------------------------------------------- convergence

  /** Appending turns a final lone `\r` into a `\r\n` that was not there. */
  predicate NewlineFlips(original: string) {
    Find(original, BEGIN_MARK).None? && !HasCrlf(original)
    && original != "" && original[|original| - 1] == '\r'
  }

  lemma BlockLacksReturn(ip: string, names: seq<string>)
    requires CleanText(ip) && CleanNames(names)
    ensures '\r' !in RenderedBlock(ip, names, "\n")
  {
    MarksAreOneLine();
    NamesTextIsClean(names);
  }

  lemma GapLacksReturn(original: string)
    requires !HasCrlf(original)
    ensures '\r' !in Gap(original)
  {
  }

  lemma KeptPartsLackCrlf(original: string)
    requires !HasCrlf(original) && !NewlineFlips(original)
    ensures Lacks(Before(original), "\r\n") && Lacks(After(original), "\r\n")
  {
    hide FindFrom, At;
    var begin, end := Find(original, BEGIN_MARK), Find(original, END_MARK);
    NoReturnLacksCrlf("");
    if begin.Some? {
      LacksHalves(original, "\r\n", begin.value);
      if end.Some? && end.value > begin.value {
        LacksHalves(original, "\r\n", SkipEol(original, end.value + |END_MARK|));
      }
    } else {
      GapLacksReturn(original);
      NoReturnLacksCrlf(Gap(original));
      CrlfNeedsBoth(original, Gap(original));
    }
  }

  lemma UnflippedKeepsLf(original: string, ip: string, names: seq<string>)
    requires CleanText(ip) && CleanNames(names)
    requires !HasCrlf(original) && !NewlineFlips(original)
    ensures !HasCrlf(Synced(original, ip, names))
  {
    var block := RenderedBlock(ip, names, "\n");
    RenderedIsBlock(ip, names, "\n");
    ReplacedBlock(original, ManagedLines(ip, names, "\n"), "\n");
    BlockLacksReturn(ip, names);
    NoReturnLacksCrlf(block);
    KeptPartsLackCrlf(original);
    MarkFacts();
    assert block[0] == BEGIN_MARK[0];
    CrlfNeedsBoth(Before(original), block);
    CrlfNeedsBoth(Before(original) + block, After(original));
  }

  lemma CrlfInside(a: string, c: string, i: nat)
    requires i + 1 < |a| + |c| && (a + c)[i] == '\r' && (a + c)[i + 1] == '\n'
    ensures HasCrlf(a + c)
  {
    assert (a + c)[i..i + 2] == "\r\n";
    assert At(a + c, "\r\n", i);
  }

  lemma CrlfStays(original: string, ip: string, names: seq<string>)
    requires CleanText(ip) && CleanNames(names) && HasCrlf(original)
    ensures HasCrlf(Synced(original, ip, names))
  {
    RenderedIsBlock(ip, names, "\r\n");
    ReplacedBlock(original, ManagedLines(ip, names, "\r\n"), "\r\n");
    var block := RenderedBlock(ip, names, "\r\n");
    var n := |Before(original) + block|;
    assert block[|block| - 2] == '\r' && block[|block| - 1] == '\n';
    CrlfInside(Before(original) + block, After(original), n - 2);
  }

  lemma FourRegroup(a: string, b: string, c: string, d: string)
    ensures a + b + c + d == a + (b + c + d)
  {
  }

  lemma LoneReturnFlips(original: string, ip: string, names: seq<string>)
    requires CleanText(ip) && CleanNames(names) && NewlineFlips(original)
    ensures HasCrlf(Synced(original, ip, names))
  {
    RenderedIsBlock(ip, names, "\n");
    ReplacedBlock(original, ManagedLines(ip, names, "\n"), "\n");
    var block := RenderedBlock(ip, names, "\n");
    var gap := Gap(original);
    assert gap[0] == '\n';
    FourRegroup(original, gap, block, After(original));
    CrlfInside(original, gap + block + After(original), |original| - 1);
  }

  lemma NewlineOfSynced(original: string, ip: string, names: seq<string>)
    requires CleanText(ip) && CleanNames(names)
    ensures Newline(Synced(original, ip, names)) == if NewlineFlips(original) then "\r\n" else Newline(original)
  {
    if HasCrlf(original) {
      CrlfStays(original, ip, names);
    } else if NewlineFlips(original) {
      LoneReturnFlips(original, ip, names);
    } else {
      UnflippedKeepsLf(original, ip, names);
    }
  }

  lemma BlocksDiffer(pre: string, post: string, ip: string, names: seq<string>)
    ensures pre + RenderedBlock(ip, names, "\n") + post != pre + RenderedBlock(ip, names, "\r\n") + post
  {
    MarkFacts();
    var a := pre + RenderedBlock(ip, names, "\n") + post;
    var b := pre + RenderedBlock(ip, names, "\r\n") + post;
    assert a[|pre| + 19] == '\n';
    assert b[|pre| + 19] == '\r';
  }

  /** A second sync changes nothing exactly when the newline does not flip. */
  lemma SecondSyncIsIdleExactly(original: string, ip: string, names: seq<string>)
    requires CleanText(ip) && CleanNames(names)
    ensures Synced(Synced(original, ip, names), ip, names) == Synced(original, ip, names)
       <==> !NewlineFlips(original)
  {
    var nl := Newline(original);
    NewlineOfSynced(original, ip, names);
    LaterBlockAbsorbsEarlier(original, ip, names, nl, RenderedBlock(ip, names, Newline(Synced(original, ip, names))));
    if NewlineFlips(original) {
      RenderedIsBlock(ip, names, "\n");
      RenderedIsBlock(ip, names, "\r\n");
      ReplacedBlock(original, ManagedLines(ip, names, "\n"), "\n");
      ReplacedBlock(original, ManagedLines(ip, names, "\r\n"), "\r\n");
      BlocksDiffer(Before(original), After(original), ip, names);
    }
  }

  lemma NoMarkWithoutHash(s: string)
    requires '#' !in s && '\n' !in s
    ensures Lacks(s, BEGIN_MARK) && Lacks(s, "\r\n")
  {
    MarkFacts();
    forall i
      ensures !At(s, BEGIN_MARK, i) && !At(s, "\r\n", i)
    {
      if 0 <= i && i + 2 <= |s| {
        assert s[i..i + 2][1] == s[i + 1];
        assert s[i] != BEGIN_MARK[0];
        assert i + 19 <= |s| ==> s[i..i + 19][0] == s[i];
      }
    }
  }

  /** A file whose only line ends in a carriage return is changed by the second sync. */
  lemma LoneReturnIsSyncedTwice(ip: string, names: seq<string>)
    requires CleanText(ip) && CleanNames(names)
    ensures var original := "127.0.0.1 localhost\r";
      Synced(Synced(original, ip, names), ip, names) != Synced(original, ip, names)
  {
    hide FindFrom, Synced;
    var original := "127.0.0.1 localhost\r";
    assert |original| == 20 && original[19] == '\r' && '#' !in original && '\n' !in original;
    NoMarkWithoutHash(original);
    SecondSyncIsIdleExactly(original, ip, names);
  }

  /** From every text, two syncs reach a fixed point. */
  lemma TwoSyncsConverge(original: string, ip: string, names: seq<string>)
    requires CleanText(ip) && CleanNames(names)
    ensures var twice := Synced(Synced(original, ip, names), ip, names);
      Synced(twice, ip, names) == twice
  {
    var once := Synced(original, ip, names);
    SecondSyncIsIdleExactly(original, ip, names);
    SecondSyncIsIdleExactly(once, ip, names);
    if NewlineFlips(original) {
      NewlineOfSynced(original, ip, names);
      assert HasCrlf(once);
    }
  }

  // ---------------------------------------------------------------- reading the block back

  lemma AfterAddress(ip: string, text: string, sep: string, last: string)
    ensures ip + (text + sep + last) == ip + text + sep + last
  {
  }

  lemma {:induction false} JoinOfSnoc(parts: seq<string>, last: string, sep: string)
    requires parts != []
    ensures Join(parts + [last], sep) == Join(parts, sep) + sep + last
  {
    if |parts| == 1 {
      assert (parts + [last])[1..] == [last];
    } else {
      assert (parts + [last])[1..] == parts[1..] + [last];
      JoinOfSnoc(parts[1..], last, sep);
    }
  }

  lemma {:induction false} NamesTextJoins(ip: string, names: seq<string>)
    ensures ip + NamesText(names) == Join([ip] + names, " ")
    decreases |names|
  {
    if names == [] {
      assert [ip] + names == [ip];
    } else {
      var most, last := names[..|names| - 1], names[|names| - 1];
      NamesTextJoins(ip, most);
      AfterAddress(ip, NamesText(most), " ", last);
      JoinOfSnoc([ip] + most, last, " ");
      assert [ip] + names == [ip] + most + [last];
    }
  }

  /** Split on blanks, the managed line gives back the address and exactly the names. */
  lemma ManagedLineReadsBack(ip: string, names: seq<string>)
    requires CleanText(ip) && CleanNames(names)
    ensures Split(ip + NamesText(names), " ") == [ip] + names
  {
    var parts := [ip] + names;
    NamesTextJoins(ip, names);
    forall i | 0 <= i < |parts|
      ensures Lacks(parts[i], " ")
    {
      LacksChar(parts[i], ' ');
      assert i > 0 ==> parts[i] == names[i - 1];
    }
    SplitOfJoin(parts, " ");
  }

  lemma CleanLacksNewline(s: string, newline: string)
    requires '\r' !in s && '\n' !in s && IsNewline(newline)
    ensures Lacks(s, newline)
  {
    forall i
      ensures !At(s, newline, i)
    {
      if At(s, newline, i) {
        CharOfMark(s, newline, i, 0);
      }
    }
  }

  lemma FourLinesSplit(a: string, b: string, c: string, d: string, sep: string)
    requires Unbordered(sep)
    requires Lacks(a, sep) && Lacks(b, sep) && Lacks(c, sep) && Lacks(d, sep)
    ensures Split(a + sep + b + sep + c + sep + d, sep) == [a, b, c, d]
  {
    var parts := [a, b, c, d];
    JoinOfSnoc([a, b, c], d, sep);
    JoinOfSnoc([a, b], c, sep);
    JoinOfSnoc([a], b, sep);
    assert [a, b, c] + [d] == parts && [a, b] + [c] == [a, b, c] && [a] + [b] == [a, b];
    SplitOfJoin(parts, sep);
  }

  lemma LinesRegroup(begin: string, nl: string, ip: string, text: string, end: string)
    ensures begin + (nl + ip + text + nl) + end + nl == begin + nl + (ip + text) + nl + end + nl
  {
    assert nl + ip + text + nl == nl + (ip + text) + nl;
    assert begin + (nl + (ip + text) + nl) == begin + nl + (ip + text) + nl;
  }

  lemma BlockAsLines(ip: string, names: seq<string>, newline: string)
    requires names != []
    ensures RenderedBlock(ip, names, newline)
         == BEGIN_MARK + newline + (ip + NamesText(names)) + newline + END_MARK + newline + ""
  {
    LinesRegroup(BEGIN_MARK, newline, ip, NamesText(names), END_MARK);
    NothingFollows(RenderedBlock(ip, names, newline));
  }

  /** The block is four lines: the marks, the managed line between them, and the end. */
  lemma BlockLines(ip: string, names: seq<string>, newline: string)
    requires CleanText(ip) && CleanNames(names) && names != [] && IsNewline(newline)
    ensures Split(RenderedBlock(ip, names, newline), newline) == [BEGIN_MARK, ip + NamesText(names), END_MARK, ""]
  {
    MarksAreOneLine();
    NamesTextIsClean(names);
    CleanLacksNewline(BEGIN_MARK, newline);
    CleanLacksNewline(ip + NamesText(names), newline);
    CleanLacksNewline(END_MARK, newline);
    CleanLacksNewline("", newline);
    BlockAsLines(ip, names, newline);
    FourLinesSplit(BEGIN_MARK, ip + NamesText(names), END_MARK, "", newline);
  }

  // ---------------------------------------------------------------- what the file looks like

  /** A block without names is the two marks, each on its line. */
  lemma EmptyBlock(ip: string, newline: string)
    ensures RenderedBlock(ip, [], newline) == "# BEGIN nyasniproxy" + newline + "# END nyasniproxy" + newline
  {
    assert ManagedLines(ip, [], newline) == newline;
  }

  /** The block of the repository's documentation (`README.md:84-88`), line by line. */
  lemma DocumentedBlock(newline: string)
    ensures RenderedBlock("127.0.0.2", ["netflix.com", "www.netflix.com"], newline)
         == "# BEGIN nyasniproxy" + newline + "127.0.0.2 netflix.com www.netflix.com" + newline
            + "# END nyasniproxy" + newline
  {
    var names := ["netflix.com", "www.netflix.com"];
    assert names[..1] == ["netflix.com"];
    assert NamesText(["netflix.com"]) == " netflix.com";
    assert "127.0.0.2" + NamesText(names) == "127.0.0.2 netflix.com www.netflix.com";
    LinesRegroup(BEGIN_MARK, newline, "127.0.0.2", NamesText(names), END_MARK);
  }

  /** Behind the end mark exactly one line end is skipped, if there is one. */
  lemma OneLineEndIsSkipped(text: string, offset: nat)
    requires offset <= |text|
    ensures var rest := text[offset..];
      SkipEol(text, offset) == offset + if "\r\n" <= rest then 2 else if "\n" <= rest then 1 else 0
  {
    var rest := text[offset..];
    assert forall i :: 0 <= i < |rest| ==> rest[i] == text[offset + i];
    assert "\r\n" <= rest <==> |rest| >= 2 && rest[0] == '\r' && rest[1] == '\n';
    assert "\n" <= rest <==> |rest| >= 1 && rest[0] == '\n';
  }

  lemma RenderedEndsLine(ip: string, names: seq<string>, newline: string)
    requires IsNewline(newline)
    ensures EndsLine(RenderedBlock(ip, names, newline))
  {
  }

  lemma NewlineExactly(original: string)
    ensures Newline(original) == if exists i :: At(original, "\r\n", i) then "\r\n" else "\n"
  {
  }

  lemma AppendedText(original: string, block: string)
    requires Find(original, BEGIN_MARK).None? && EndsLine(block)
    ensures original == "" ==> Replaced(original, block) == block
    ensures original != "" && original[|original| - 1] == '\n' ==>
      Replaced(original, block) == original + Newline(original) + block
    ensures original != "" && original[|original| - 1] != '\n' ==>
      Replaced(original, block) == original + "\n" + Newline(original) + block
  {
    hide Newline, FindFrom, At;
    NothingFollows(block);
    NothingFollows(Before(original) + block);
    Regroup(original, "\n", Newline(original));
    assert "" + Newline(original) == Newline(original);
    assert original == "" ==> original + "" + block == block;
  }

  /** A text without a block keeps every character. The block starts a line of its own after one
      empty line, which ends as the lines of the text do. */
  lemma AppendedAfterEmptyLine(original: string, ip: string, names: seq<string>)
    requires Lacks(original, BEGIN_MARK)
    ensures var newline := if exists i :: At(original, "\r\n", i) then "\r\n" else "\n";
      var block := RenderedBlock(ip, names, newline);
      && (original == "" ==> Synced(original, ip, names) == block)
      && (original != "" && original[|original| - 1] == '\n' ==>
            Synced(original, ip, names) == original + newline + block)
      && (original != "" && original[|original| - 1] != '\n' ==>
            Synced(original, ip, names) == original + "\n" + newline + block)
  {
    hide RenderedBlock, Newline, FindFrom, At, EndsLine, Replaced;
    NewlineExactly(original);
    RenderedEndsLine(ip, names, Newline(original));
    AppendedText(original, RenderedBlock(ip, names, Newline(original)));
  }

  /** A closed block is replaced where it stands, and nothing else changes. */
  lemma BlockIsReplaced(pre: string, body: string, newline: string, post: string, ip: string, names: seq<string>)
    requires Lacks(pre, "# BEGIN nyasniproxy") && Lacks(pre, "# END nyasniproxy") && '#' !in body && IsNewline(newline)
    ensures var text := pre + ("# BEGIN nyasniproxy" + body + "# END nyasniproxy" + newline) + post;
      Synced(text, ip, names) == pre + RenderedBlock(ip, names, Newline(text)) + post
  {
    hide RenderedBlock;
    var text := pre + Block(body, newline) + post;
    var block := RenderedBlock(ip, names, Newline(text));
    PartsOfBlock(pre, body, newline, post);
    RenderedEndsLine(ip, names, Newline(text));
    NothingFollows(pre + block);
  }
}
