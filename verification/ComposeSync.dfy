/** Generating the devcontainer's compose file from the root one, by whole lines:
    scripts/sync-dev-compose.py. */
module ComposeSync {
  import opened Options
  import opened Text

  // ----- lines

  /** `str.isspace` of one character. */
  predicate IsSpace(c: char) {
    var n := c as int;
    || 9 <= n <= 13 || 28 <= n <= 32 || n == 0x85 || n == 0xA0 || n == 0x1680 || 0x2000 <= n <= 0x200A
    || n == 0x2028 || n == 0x2029 || n == 0x202F || n == 0x205F || n == 0x3000
  }

  predicate AllSpace(s: string) {
    forall i :: 0 <= i < |s| ==> IsSpace(s[i])
  }

  /** A line that starts a top-level key (or a comment). */
  predicate TopLevel(line: string) {
    line != "" && !IsSpace(line[0])
  }

  predicate IsNameChar(c: char) {
    'A' <= c <= 'Z' || 'a' <= c <= 'z' || '0' <= c <= '9' || c == '_' || c == '-'
  }

  /** Where the run of name characters from `i` ends. */
  function NameEnd(line: string, i: nat): (e: nat)
    requires i <= |line|
    ensures i <= e <= |line|
    ensures forall k :: i <= k < e ==> IsNameChar(line[k])
    ensures e < |line| ==> !IsNameChar(line[e])
    decreases |line| - i
  {
    if i < |line| && IsNameChar(line[i]) then NameEnd(line, i + 1) else i
  }

  /** The name of a service, if the line is a key indented by two spaces. */
  function ServiceName(line: string): Option<string> {
    if |line| < 2 || line[0] != ' ' || line[1] != ' ' then None
    else
      var e := NameEnd(line, 2);
      if e > 2 && e < |line| && line[e] == ':' && AllSpace(line[e + 1..]) then Some(line[2..e]) else None
  }

  function Before(line: string, c: char): string {
    if line == "" || line[0] == c then "" else [line[0]] + Before(line[1..], c)
  }

  function LStrip(s: string): string {
    if s != "" && IsSpace(s[0]) then LStrip(s[1..]) else s
  }

  function RStrip(s: string): string {
    if s != "" && IsSpace(s[|s| - 1]) then RStrip(s[..|s| - 1]) else s
  }

  /** `line.split(":", 1)[0].strip()`. */
  function Section(line: string): string {
    RStrip(LStrip(Before(line, ':')))
  }

  /** `_strip_trailing_blank`. */
  function StripBlank(lines: seq<string>): seq<string> {
    if lines != [] && AllSpace(lines[|lines| - 1]) then StripBlank(lines[..|lines| - 1]) else lines
  }

  // ----- the parser

  datatype Parser = Parser(
    services: map<string, seq<string>>, volumes: Option<seq<string>>, section: Option<string>,
    current: Option<string>, buf: seq<string>)

  const START := Parser(map[], None, None, None, [])

  function Flush(p: Parser): Parser {
    if p.current.None? then p
    else p.(services := p.services[p.current.value := StripBlank(p.buf)], current := None, buf := [])
  }

  function Open(p: Parser, line: string): Parser {
    var section := Section(line);
    Flush(p).(section := Some(section), volumes := if section == "volumes" then Some([line]) else p.volumes)
  }

  function Step(p: Parser, line: string): Parser {
    if TopLevel(line) then Open(p, line)
    else if p.section == Some("services") && ServiceName(line).Some? then
      Flush(p).(current := ServiceName(line), buf := [line])
    else if p.current.Some? then p.(buf := p.buf + [line])
    else if p.section == Some("volumes") && p.volumes.Some? then p.(volumes := Some(p.volumes.value + [line]))
    else p
  }

  function Steps(p: Parser, lines: seq<string>): Parser {
    if lines == [] then p else Step(Steps(p, lines[..|lines| - 1]), lines[|lines| - 1])
  }

  /** parse_compose. */
  function Parse(text: string): (map<string, seq<string>>, seq<string>) {
    var p := Flush(Steps(START, Split(text, '\n')));
    (p.services, if p.volumes.Some? then p.volumes.value else [])
  }

  method ParseCompose(text: string) returns (services: map<string, seq<string>>, volumes: seq<string>)
    ensures (services, volumes) == Parse(text)
  {
    var lines := Split(text, '\n');
    services := map[];
    var found: Option<seq<string>> := None;
    var section: Option<string> := None;
    var current: Option<string> := None;
    var buf: seq<string> := [];
    hide IsSpace, AllSpace, ServiceName, Section, StripBlank;
    for k := 0 to |lines|
      invariant Parser(services, found, section, current, buf) == Steps(START, lines[..k])
    {
      var line := lines[k];
      assert lines[..k + 1][..k] == lines[..k];
      if line != "" && !IsSpace(line[0]) {
        if current.Some? {
          services := services[current.value := StripBlank(buf)];
          current, buf := None, [];
        }
        section := Some(Section(line));
        if section == Some("volumes") {
          found := Some([line]);
        }
        continue;
      }
      if section == Some("services") {
        var name := ServiceName(line);
        if name.Some? {
          if current.Some? {
            services := services[current.value := StripBlank(buf)];
          }
          current, buf := name, [line];
          continue;
        }
      }
      if current.Some? {
        buf := buf + [line];
      } else if section == Some("volumes") && found.Some? {
        found := Some(found.value + [line]);
      }
    }
    assert lines[..|lines|] == lines;
    if current.Some? {
      services := services[current.value := StripBlank(buf)];
    }
    volumes := if found.Some? then found.value else [];
  }

  // ----- container names

  const OLD_NAME := "container_name: yarrow_"
  const NEW_NAME := "container_name: yarrow_dev_"

  function Prefix(line: string): string {
    Replace(line, OLD_NAME, NEW_NAME)
  }

  /** prefix_container_names. */
  function PrefixNames(block: seq<string>): (r: seq<string>)
    ensures |r| == |block| && forall i :: 0 <= i < |r| ==> r[i] == Prefix(block[i])
  {
    if block == [] then [] else [Prefix(block[0])] + PrefixNames(block[1..])
  }

  // ----- the generator

  const SHARED_SERVICES := ["postgres", "valkey", "rustfs", "rustfs-volumes", "create-bucket"]

  /** What the generator writes of its own: the lines of the file's header, and the
      editor's service with its name. */
  datatype Template = Template(header: seq<string>, editor: string, lines: seq<string>) {
    ghost predicate Valid() {
      && header != [] && (forall i :: 0 <= i < |header| ==> HeaderLine(header[i]))
      && IsBlock(editor, lines) && editor !in SHARED_SERVICES
    }
  }

  /** Templates there are, with an editor of any other name. */
  lemma TemplateOf(name: string)
    requires name != "" && (forall c <- name :: IsNameChar(c)) && name !in SHARED_SERVICES
    ensures Template(["#"], name, ["  " + name + ":"]).Valid()
  {
    var line := "  " + name + ":";
    var e := NameEnd(line, 2);
    assert forall k :: 2 <= k < |name| + 2 ==> line[k] == name[k - 2] && IsNameChar(line[k]);
    assert line[|name| + 2] == ':';
    assert e == |name| + 2;
    assert line[2..e] == name && line[e + 1..] == "";
    NotSpace(line, e);
  }

  lemma NotSpace(s: string, i: nat)
    requires i < |s| && !IsSpace(s[i])
    ensures !AllSpace(s)
  {
  }

  /** The shared services that a parsed file lacks. */
  function Missing(services: map<string, seq<string>>, names: seq<string>): seq<string> {
    if names == [] then []
    else (if names[0] in services then [] else [names[0]]) + Missing(services, names[1..])
  }

  function Blocks(services: map<string, seq<string>>, names: seq<string>): (blocks: seq<seq<string>>)
    requires forall name <- names :: name in services
    ensures |blocks| == |names| && forall i :: 0 <= i < |names| ==> blocks[i] == PrefixNames(services[names[i]])
  {
    if names == [] then [] else [PrefixNames(services[names[0]])] + Blocks(services, names[1..])
  }

  function JoinLines(blocks: seq<seq<string>>): (texts: seq<string>)
    ensures |texts| == |blocks| && forall i :: 0 <= i < |blocks| ==> texts[i] == Join(blocks[i], "\n")
  {
    if blocks == [] then [] else [Join(blocks[0], "\n")] + JoinLines(blocks[1..])
  }

  function Assemble(header: seq<string>, blocks: seq<seq<string>>, volumes: seq<string>): string {
    var parts := [Join(header, "\n") + "\n", "services:", Join(JoinLines(blocks), "\n\n"), "",
                  Join(StripBlank(volumes), "\n")];
    Join(parts, "\n") + "\n"
  }

  /** generate; nothing when a shared service is missing, where the script exits. */
  function Generate(template: Template, root: string): Option<string> {
    var (services, volumes) := Parse(root);
    if Missing(services, SHARED_SERVICES) != [] then None
    else
      MissingNone(services, SHARED_SERVICES);
      Some(Assemble(template.header, [template.lines] + Blocks(services, SHARED_SERVICES), volumes))
  }

  lemma {:induction false} MissingNone(services: map<string, seq<string>>, names: seq<string>)
    ensures Missing(services, names) == [] <==> forall name <- names :: name in services
  {
    if names != [] {
      MissingNone(services, names[1..]);
    }
  }

  // ----- prefixing container names

  /** Copied text is not changed before the first character an occurrence could start with. */
  lemma {:induction false} PrefixCopies(s: string, t: string)
    requires 'c' !in t && t <= Prefix(s)
    ensures t <= s
  {
    if t != "" {
      assert t[0] == Prefix(s)[0];
      assert NEW_NAME[0] == OLD_NAME[0] == 'c';
      if |s| >= |OLD_NAME| {
        assert s[..|OLD_NAME|] != OLD_NAME;
        assert Prefix(s) == [s[0]] + Prefix(s[1..]);
        assert t[1..] <= Prefix(s)[1..];
        PrefixCopies(s[1..], t[1..]);
        assert s == [s[0]] + s[1..] && t == [t[0]] + t[1..];
      }
    }
  }

  /** Prefixing loses nothing: taking the prefix off again gives the line back. So
      different container names stay different. */
  lemma {:induction false} PrefixUndone(line: string)
    ensures Replace(Prefix(line), NEW_NAME, OLD_NAME) == line
  {
    var prefixed := Prefix(line);
    if |line| < |OLD_NAME| {
      assert prefixed == line && |line| < |NEW_NAME|;
    } else if line[..|OLD_NAME|] == OLD_NAME {
      var rest := line[|OLD_NAME|..];
      PrefixUndone(rest);
      assert prefixed == NEW_NAME + Prefix(rest);
      assert prefixed[..|NEW_NAME|] == NEW_NAME && prefixed[|NEW_NAME|..] == Prefix(rest);
      assert line == OLD_NAME + rest;
    } else {
      PrefixUndone(line[1..]);
      assert prefixed == [line[0]] + Prefix(line[1..]);
      assert line == [line[0]] + line[1..];
      TailCopied(line[0], line[1..]);
      assert prefixed[1..] == Prefix(line[1..]);
    }
  }

  lemma TailCopied(c: char, tail: string)
    ensures NEW_NAME <= [c] + Prefix(tail) ==> OLD_NAME <= [c] + tail
  {
    var all := [c] + Prefix(tail);
    if NEW_NAME <= all {
      OldNameTail();
      assert c == NEW_NAME[0] == OLD_NAME[0];
      assert OLD_NAME[1..] <= NEW_NAME[1..] <= all[1..] == Prefix(tail);
      PrefixCopies(tail, OLD_NAME[1..]);
      assert OLD_NAME == [OLD_NAME[0]] + OLD_NAME[1..];
    }
  }

  lemma OldNameTail()
    ensures 'c' !in OLD_NAME[1..] && OLD_NAME <= NEW_NAME
  {
  }

  // ----- the lines of a service

  /** A line inside a service: indented or blank, and no service's own line. */
  ghost predicate Inner(line: string) {
    '\n' !in line && !TopLevel(line) && ServiceName(line).None?
  }

  /** The service's own line, followed by lines inside it. */
  ghost predicate Begins(name: string, lines: seq<string>) {
    && lines != [] && ServiceName(lines[0]) == Some(name) && '\n' !in lines[0]
    && forall i :: 0 < i < |lines| ==> Inner(lines[i])
  }

  /** A service as it is kept: without blank lines at its end. */
  ghost predicate IsBlock(name: string, lines: seq<string>) {
    Begins(name, lines) && !AllSpace(lines[|lines| - 1])
  }

  ghost predicate IsVolumes(lines: seq<string>) {
    && lines != [] && TopLevel(lines[0]) && Section(lines[0]) == "volumes" && '\n' !in lines[0]
    && forall i :: 0 < i < |lines| ==> '\n' !in lines[i] && !TopLevel(lines[i])
  }

  /** A service line is two spaces, a name, a colon and nothing but space. */
  lemma {:induction false} ServiceNameIs(line: string)
    ensures ServiceName(line).Some? ==>
      var name := ServiceName(line).value;
      && |line| > |name| + 2 > 2
      && (forall i :: 2 <= i < |name| + 2 ==> IsNameChar(line[i])) && line[|name| + 2] == ':'
      && (forall i :: |name| + 2 < i < |line| ==> IsSpace(line[i]))
      && line[0] == line[1] == ' ' && line[2..|name| + 2] == name
  {
    if ServiceName(line).Some? {
      var e := NameEnd(line, 2);
      assert forall i :: e < i < |line| ==> line[i] == line[e + 1..][i - e - 1];
    }
  }

  /** So it has no colon with anything but a space two places on. */
  lemma NoNameAfterColon(line: string, i: nat)
    requires ServiceName(line).Some? && i + 2 < |line| && line[i] == ':'
    ensures IsSpace(line[i + 2])
  {
    ServiceNameIs(line);
  }

  lemma ServiceLineShape(line: string)
    requires ServiceName(line).Some?
    ensures !TopLevel(line) && !AllSpace(line)
  {
    ServiceNameIs(line);
    var colon := |ServiceName(line).value| + 2;
    assert !IsSpace(line[colon]);
  }

  /** A line that prefixing changes has a name after a colon, before and after. */
  lemma {:induction false} PrefixChanges(line: string)
    ensures Prefix(line) == line || (HasName(line) && HasName(Prefix(line)))
  {
    if |line| >= |OLD_NAME| {
      if line[..|OLD_NAME|] == OLD_NAME {
        var rest := line[|OLD_NAME|..];
        assert Prefix(line) == NEW_NAME + Prefix(rest);
        assert NameAt(line, 14) by {
          assert line[14] == OLD_NAME[14] && line[16] == OLD_NAME[16];
        }
        assert NameAt(Prefix(line), 14) by {
          assert Prefix(line)[14] == NEW_NAME[14] && Prefix(line)[16] == NEW_NAME[16];
        }
      } else {
        var tail := line[1..];
        PrefixChanges(tail);
        assert Prefix(line) == [line[0]] + Prefix(tail);
        if Prefix(tail) == tail {
          assert line == [line[0]] + tail;
        } else {
          HasNameMore(line[0], tail);
          HasNameMore(line[0], Prefix(tail));
          assert line == [line[0]] + tail;
        }
      }
    }
  }

  predicate NameAt(line: string, i: nat) {
    i + 2 < |line| && line[i] == ':' && line[i + 2] == 'y'
  }

  ghost predicate HasName(line: string) {
    exists i: nat :: NameAt(line, i)
  }

  lemma HasNameMore(c: char, line: string)
    requires HasName(line)
    ensures HasName([c] + line)
  {
    var i: nat :| NameAt(line, i);
    assert NameAt([c] + line, i + 1);
  }

  lemma ServiceHasNoName(line: string)
    requires HasName(line)
    ensures ServiceName(line).None? && !AllSpace(line)
  {
    var i: nat :| NameAt(line, i);
    assert !IsSpace(line[i + 2]);
    if ServiceName(line).Some? {
      NoNameAfterColon(line, i);
    }
  }

  lemma {:induction false} PrefixFirst(line: string)
    ensures (line == "" <==> Prefix(line) == "")
    ensures line != "" ==> Prefix(line)[0] == line[0]
    ensures '\n' !in line ==> '\n' !in Prefix(line)
  {
    if |line| >= |OLD_NAME| {
      if line[..|OLD_NAME|] == OLD_NAME {
        var rest := line[|OLD_NAME|..];
        PrefixFirst(rest);
        NewNameLine();
        assert line[0] == OLD_NAME[0] && Prefix(line) == NEW_NAME + Prefix(rest);
      } else {
        PrefixFirst(line[1..]);
        assert Prefix(line) == [line[0]] + Prefix(line[1..]);
      }
    }
  }

  lemma NewNameLine()
    ensures '\n' !in NEW_NAME && NEW_NAME[0] == OLD_NAME[0]
  {
  }

  /** Prefixing keeps what a line is: a service's own line, a line inside, a blank one. */
  lemma PrefixKeepsLine(line: string)
    ensures ServiceName(Prefix(line)) == ServiceName(line)
    ensures Inner(line) ==> Inner(Prefix(line))
    ensures !AllSpace(line) ==> !AllSpace(Prefix(line))
    ensures '\n' !in line ==> '\n' !in Prefix(line)
  {
    PrefixFirst(line);
    PrefixChanges(line);
    if Prefix(line) != line {
      ServiceHasNoName(line);
      ServiceHasNoName(Prefix(line));
    }
  }

  lemma {:induction false} PrefixKeepsBlock(name: string, block: seq<string>)
    requires IsBlock(name, block)
    ensures IsBlock(name, PrefixNames(block))
  {
    hide Prefix, ServiceName, AllSpace, Inner;
    var prefixed := PrefixNames(block);
    PrefixKeepsLine(block[0]);
    PrefixKeepsLine(block[|block| - 1]);
    assert prefixed[0] == Prefix(block[0]);
    forall i | 0 < i < |prefixed|
      ensures Inner(prefixed[i])
    {
      assert Inner(block[i]);
      PrefixKeepsLine(block[i]);
    }
  }

  // ----- what parsing keeps

  lemma {:induction false} StripKeepsBlock(name: string, lines: seq<string>)
    requires Begins(name, lines)
    ensures IsBlock(name, StripBlank(lines))
    decreases |lines|
  {
    if AllSpace(lines[|lines| - 1]) {
      ServiceLineShape(lines[0]);
      StripKeepsBlock(name, lines[..|lines| - 1]);
    }
  }

  ghost predicate Good(p: Parser) {
    && (forall name <- p.services :: IsBlock(name, p.services[name]))
    && (p.current.Some? ==> p.section == Some("services") && Begins(p.current.value, p.buf))
    && (p.volumes.Some? ==> IsVolumes(p.volumes.value))
  }

  lemma FlushGood(p: Parser)
    requires Good(p)
    ensures Good(Flush(p))
  {
    if p.current.Some? {
      StripKeepsBlock(p.current.value, p.buf);
    }
    hide IsBlock, Begins, StripBlank;
  }

  lemma StepGood(p: Parser, line: string)
    requires Good(p) && '\n' !in line
    ensures Good(Step(p, line))
  {
    FlushGood(p);
    hide IsBlock, StripBlank, ServiceName, Section, TopLevel;
    if p.current.Some? {
      assert Inner(line) ==> Begins(p.current.value, p.buf + [line]);
    }
  }

  lemma {:induction false} StepsGood(lines: seq<string>)
    requires forall line <- lines :: '\n' !in line
    ensures Good(Steps(START, lines))
  {
    if lines != [] {
      StepsGood(lines[..|lines| - 1]);
      StepGood(Steps(START, lines[..|lines| - 1]), lines[|lines| - 1]);
    }
  }

  /** Every service of a parsed file is its own line and lines inside it, and ends with
      a line that is not blank; the volumes section is a section of that name. */
  lemma {:induction false} ParsedBlocks(text: string)
    ensures var (services, volumes) := Parse(text);
            && (forall name <- services :: IsBlock(name, services[name]))
            && (volumes != [] ==> IsVolumes(volumes))
  {
    SplitParts(text, '\n');
    StepsGood(Split(text, '\n'));
    FlushGood(Steps(START, Split(text, '\n')));
  }

  // ----- parsing what was generated

  lemma {:induction false} StepsConcat(p: Parser, a: seq<string>, b: seq<string>)
    ensures Steps(p, a + b) == Steps(Steps(p, a), b)
  {
    hide Step;
    if b == [] {
      assert a + b == a;
    } else {
      StepsConcat(p, a, b[..|b| - 1]);
      assert (a + b)[..|a + b| - 1] == a + b[..|b| - 1];
    }
  }

  lemma {:induction false} BlockParsed(p: Parser, name: string, block: seq<string>)
    requires p.section == Some("services") && Begins(name, block)
    ensures Steps(p, block) == Flush(p).(current := Some(name), buf := block)
    decreases |block|
  {
    var init, last := block[..|block| - 1], block[|block| - 1];
    if init == [] {
      ServiceLineShape(block[0]);
      assert Steps(p, []) == p && block == [block[0]];
    } else {
      BlockParsed(p, name, init);
      assert Inner(last);
      assert init + [last] == block;
    }
  }

  lemma BlankParsed(p: Parser)
    requires p.current.Some?
    ensures Step(p, "") == p.(buf := p.buf + [""])
  {
  }

  lemma {:induction false} StripPad(block: seq<string>, pad: seq<string>)
    requires block != [] && !AllSpace(block[|block| - 1]) && forall i :: 0 <= i < |pad| ==> pad[i] == ""
    ensures StripBlank(block + pad) == block
    decreases |pad|
  {
    if pad == [] {
      assert block + pad == block;
    } else {
      StripPad(block, pad[..|pad| - 1]);
      assert (block + pad)[..|block + pad| - 1] == block + pad[..|pad| - 1];
      assert (block + pad)[|block + pad| - 1] == "";
    }
  }

  /** The lines of the blocks, each followed by a blank line. */
  function BlockLines(blocks: seq<seq<string>>): seq<string> {
    if blocks == [] then [] else BlockLines(blocks[..|blocks| - 1]) + (blocks[|blocks| - 1] + [""])
  }

  function AddAll(services: map<string, seq<string>>, names: seq<string>, blocks: seq<seq<string>>)
    : map<string, seq<string>>
    requires |names| == |blocks|
  {
    if names == [] then services
    else
      var n := |names| - 1;
      AddAll(services, names[..n], blocks[..n])[names[n] := blocks[n]]
  }

  lemma OneBlockParsed(p: Parser, name: string, block: seq<string>)
    requires p.section == Some("services") && IsBlock(name, block)
    ensures Steps(p, block + [""]) == Flush(p).(current := Some(name), buf := block + [""])
    ensures Flush(Steps(p, block + [""]))
              == Flush(p).(services := Flush(p).services[name := block], current := None, buf := [])
  {
    BlockParsed(p, name, block);
    StepsConcat(p, block, [""]);
    BlankParsed(Steps(p, block));
    assert Steps(Steps(p, block), [""]) == Step(Steps(p, block), "");
    StripPad(block, [""]);
    hide Steps, Step, IsBlock, StripBlank;
  }

  /** Reading blocks leaves the last one open; closing it, all of them are there. */
  lemma {:induction false} BlocksParsed(p: Parser, names: seq<string>, blocks: seq<seq<string>>)
    requires p.section == Some("services") && p.current.None? && p.buf == [] && |names| == |blocks| > 0
    requires forall i :: 0 <= i < |names| ==> IsBlock(names[i], blocks[i])
    ensures var q, n := Steps(p, BlockLines(blocks)), |names| - 1;
            && q == p.(services := AddAll(p.services, names[..n], blocks[..n]), current := Some(names[n]),
                       buf := blocks[n] + [""])
            && Flush(q) == p.(services := AddAll(p.services, names, blocks))
    decreases |names|
  {
    var n := |names| - 1;
    var before := Steps(p, BlockLines(blocks[..n]));
    if n == 0 {
      assert BlockLines(blocks[..n]) == [];
    } else {
      BlocksParsed(p, names[..n], blocks[..n]);
    }
    OneBlockParsed(before, names[n], blocks[n]);
    StepsConcat(p, BlockLines(blocks[..n]), blocks[n] + [""]);
  }

  lemma {:induction false} VolumesParsed(p: Parser, lines: seq<string>)
    requires IsVolumes(lines)
    ensures Steps(p, lines) == Flush(p).(section := Some("volumes"), volumes := Some(lines))
    decreases |lines|
  {
    var init, last := lines[..|lines| - 1], lines[|lines| - 1];
    if init == [] {
      assert Steps(p, []) == p && lines == [lines[0]];
    } else {
      VolumesParsed(p, init);
      assert !TopLevel(last);
      assert init + [last] == lines;
    }
  }

  /** The volumes section, or the blank line there is without one, and the end of the file. */
  lemma EndParsed(q: Parser, block: seq<string>, volumes: seq<string>)
    requires q.section == Some("services") && q.current.Some? && q.buf == block + [""] && q.volumes.None?
    requires block != [] && !AllSpace(block[|block| - 1]) && (volumes != [] ==> IsVolumes(volumes))
    ensures var tail := (if volumes == [] then [""] else volumes) + [""];
            var r := Flush(Steps(q, tail));
            r.services == Flush(q).services && r.volumes == if volumes == [] then None else Some(volumes + [""])
  {
    StripPad(block, [""]);
    if volumes == [] {
      BlankParsed(q);
      BlankParsed(Step(q, ""));
      var tail := [""] + [""];
      assert tail[..1] == [""] && tail[..1][..0] == [];
      assert Steps(q, tail[..1]) == Step(q, "");
      assert Steps(q, tail) == Step(Step(q, ""), "");
      assert block + [""] + [""] + [""] == block + ["", "", ""];
      StripPad(block, ["", "", ""]);
    } else {
      VolumesParsed(q, volumes);
      StepsConcat(q, volumes, [""]);
      assert Steps(Steps(q, volumes), [""]) == Step(Steps(q, volumes), "");
    }
  }

  // ----- the header

  lemma {:induction false} SectionFirst(line: string)
    requires TopLevel(line) && line[0] != ':'
    ensures Section(line) != "" && Section(line)[0] == line[0]
  {
    RStripFirst(Before(line, ':'));
  }

  lemma {:induction false} RStripFirst(s: string)
    requires s != "" && !IsSpace(s[0])
    ensures RStrip(s) != "" && RStrip(s)[0] == s[0]
    decreases |s|
  {
    if IsSpace(s[|s| - 1]) {
      RStripFirst(s[..|s| - 1]);
    }
  }

  /** A top-level line that opens neither section. */
  predicate HeaderLine(line: string) {
    TopLevel(line) && line[0] != ':' && line[0] != 'v' && '\n' !in line
  }

  lemma {:induction false} HeaderParsed(lines: seq<string>)
    requires forall i :: 0 <= i < |lines| ==> HeaderLine(lines[i])
    ensures var p := Steps(START, lines); p == START.(section := p.section) && p.section != Some("volumes")
  {
    if lines != [] {
      var last := lines[|lines| - 1];
      HeaderParsed(lines[..|lines| - 1]);
      SectionFirst(last);
      hide Section;
    }
  }

  lemma {:induction false} BeforeColon(name: string)
    requires ':' !in name
    ensures Before(name + ":", ':') == name
  {
    if name != "" {
      BeforeColon(name[1..]);
      assert (name + ":")[1..] == name[1..] + ":";
    }
  }

  /** The section a bare top-level key opens. */
  lemma KeySection(name: string)
    requires name != "" && ':' !in name && !IsSpace(name[0]) && !IsSpace(name[|name| - 1])
    ensures Section(name + ":") == name
  {
    BeforeColon(name);
    hide IsSpace, Before;
  }

  lemma ServicesLine()
    ensures TopLevel("services:") && Section("services:") == "services" && '\n' !in "services:"
  {
    hide Section;
    var name := "services";
    KeySection(name);
    assert name + ":" == "services:";
  }

  lemma OpeningParsed(header: seq<string>)
    requires forall i :: 0 <= i < |header| ==> HeaderLine(header[i])
    ensures Steps(START, header + [""] + ["services:"]) == START.(section := Some("services"))
  {
    HeaderParsed(header);
    ServicesLine();
    var p := Steps(START, header);
    StepsConcat(START, header, [""]);
    StepsConcat(START, header + [""], ["services:"]);
    assert Steps(p, [""]) == Step(p, "") == p;
    assert Steps(p, ["services:"]) == Step(p, "services:");
  }

  // ----- the lines of the generated text

  ghost predicate Printable(block: seq<string>) {
    block != [] && forall line <- block :: '\n' !in line
  }

  lemma {:induction false} BlocksText(blocks: seq<seq<string>>)
    requires blocks != [] && forall i :: 0 <= i < |blocks| ==> Printable(blocks[i])
    ensures Split(Join(JoinLines(blocks), "\n\n"), '\n') + [""] == BlockLinesFrom(blocks)
  {
    var texts := JoinLines(blocks);
    SplitJoin(blocks[0], '\n');
    if |blocks| == 1 {
      assert BlockLinesFrom(blocks[1..]) == [];
    } else {
      BlocksText(blocks[1..]);
      assert texts[1..] == JoinLines(blocks[1..]);
      var rest := Join(texts[1..], "\n\n");
      assert Join(texts, "\n\n") == texts[0] + ['\n'] + ("" + ['\n'] + rest);
      SplitConcat(texts[0], "" + ['\n'] + rest, '\n');
      SplitConcat("", rest, '\n');
    }
  }

  /** BlockLines, from the front. */
  function BlockLinesFrom(blocks: seq<seq<string>>): seq<string> {
    if blocks == [] then [] else blocks[0] + [""] + BlockLinesFrom(blocks[1..])
  }

  lemma {:induction false} BlockLinesSame(blocks: seq<seq<string>>)
    ensures BlockLinesFrom(blocks) == BlockLines(blocks)
    decreases |blocks|
  {
    if |blocks| == 1 {
      assert blocks[..0] == [] && blocks[1..] == [];
    } else if |blocks| > 1 {
      BlockLinesSame(blocks[1..]);
      BlockLinesSame(blocks[..|blocks| - 1]);
      BlockLinesSame(blocks[1..][..|blocks| - 2]);
      assert blocks[1..][..|blocks| - 2] == blocks[..|blocks| - 1][1..];
    }
  }

  // ----- the round trip

  /** The pieces of the generated text, line by line. */
  lemma PartsText(h: string, b: string, v: string)
    ensures Split(Join([h + "\n", "services:", b, "", v], "\n") + "\n", '\n')
              == Split(h, '\n') + [""] + ["services:"] + Split(b, '\n') + [""] + Split(v, '\n') + [""]
  {
    var t1 := h + ['\n'] + "";
    var t2 := t1 + ['\n'] + "services:";
    var t3 := t2 + ['\n'] + b;
    var t4 := t3 + ['\n'] + "";
    var t5 := t4 + ['\n'] + v;
    FiveJoined(h + "\n", "services:", b, "", v);
    assert Join([h + "\n", "services:", b, "", v], "\n") + "\n" == t5 + ['\n'] + "";
    SplitConcat(h, "", '\n');
    SplitConcat(t1, "services:", '\n');
    SplitConcat(t2, b, '\n');
    SplitConcat(t3, "", '\n');
    SplitConcat(t4, v, '\n');
    SplitConcat(t5, "", '\n');
    ServicesLine();
    SplitOne("services:", '\n');
    SplitOne("", '\n');
  }

  lemma JoinCons(first: string, rest: seq<string>, sep: string)
    requires rest != []
    ensures Join([first] + rest, sep) == first + sep + Join(rest, sep)
  {
    assert ([first] + rest)[1..] == rest;
  }

  lemma FiveJoined(a: string, b: string, c: string, d: string, e: string)
    ensures Join([a, b, c, d, e], "\n") == a + "\n" + b + "\n" + c + "\n" + d + "\n" + e
  {
    JoinCons(a, [b, c, d, e], "\n");
    JoinCons(b, [c, d, e], "\n");
    JoinCons(c, [d, e], "\n");
    JoinCons(d, [e], "\n");
    assert Join([e], "\n") == e;
    hide Join;
    assert [a] + [b, c, d, e] == [a, b, c, d, e] && [b] + [c, d, e] == [b, c, d, e];
    assert [c] + [d, e] == [c, d, e] && [d] + [e] == [d, e];
  }

  /** The volumes section as it is written: without the blank lines at its end. */
  lemma {:induction false} StripKeepsVolumes(lines: seq<string>)
    requires IsVolumes(lines)
    ensures IsVolumes(StripBlank(lines)) && StripBlank(StripBlank(lines) + [""]) == StripBlank(lines)
    decreases |lines|
  {
    var n := |lines| - 1;
    if AllSpace(lines[n]) {
      assert n > 0 by {
        assert TopLevel(lines[0]);
      }
      StripKeepsVolumes(lines[..n]);
    } else {
      assert StripBlank(lines) == lines;
      StripPad(lines, [""]);
    }
  }

  lemma PrintableBlock(name: string, block: seq<string>)
    requires IsBlock(name, block)
    ensures Printable(block)
  {
    forall line | line in block
      ensures '\n' !in line
    {
      var i :| 0 <= i < |block| && block[i] == line;
      assert i > 0 ==> Inner(block[i]);
    }
  }

  lemma PrefixedBlocks(services: map<string, seq<string>>, names: seq<string>)
    requires forall name <- services :: IsBlock(name, services[name])
    requires forall name <- names :: name in services
    ensures forall i :: 0 <= i < |names| ==> IsBlock(names[i], Blocks(services, names)[i])
  {
    hide IsBlock;
    forall i | 0 <= i < |names|
      ensures IsBlock(names[i], Blocks(services, names)[i])
    {
      assert names[i] in names;
      PrefixKeepsBlock(names[i], services[names[i]]);
    }
  }

  lemma LinesSplit(lines: seq<string>)
    requires lines != [] && forall i :: 0 <= i < |lines| ==> '\n' !in lines[i]
    ensures Split(Join(lines, "\n"), '\n') == lines
  {
    forall line | line in lines
      ensures '\n' !in line
    {
      var i :| 0 <= i < |lines| && lines[i] == line;
    }
    SplitJoin(lines, '\n');
  }

  lemma VolumesSplit(volumes: seq<string>)
    requires volumes != [] ==> IsVolumes(volumes)
    ensures var vols := StripBlank(volumes);
            && (vols == [] || IsVolumes(vols))
            && Split(Join(vols, "\n"), '\n') == if vols == [] then [""] else vols
  {
    var vols := StripBlank(volumes);
    if volumes == [] {
      assert vols == [] && Join(vols, "\n") == "";
    } else {
      StripKeepsVolumes(volumes);
      assert forall i :: 0 <= i < |vols| ==> '\n' !in vols[i];
      LinesSplit(vols);
    }
  }

  /** The written text, line by line. */
  lemma AssembledLines(header: seq<string>, names: seq<string>, blocks: seq<seq<string>>, volumes: seq<string>)
    requires header != [] && forall i :: 0 <= i < |header| ==> HeaderLine(header[i])
    requires |names| == |blocks| > 0 && forall i :: 0 <= i < |names| ==> IsBlock(names[i], blocks[i])
    requires volumes != [] ==> IsVolumes(volumes)
    ensures var vols := StripBlank(volumes);
            Split(Assemble(header, blocks, volumes), '\n')
              == header + [""] + ["services:"] + BlockLines(blocks) + ((if vols == [] then [""] else vols) + [""])
  {
    var h, b, v := Join(header, "\n"), Join(JoinLines(blocks), "\n\n"), Join(StripBlank(volumes), "\n");
    forall i | 0 <= i < |blocks|
      ensures Printable(blocks[i])
    {
      PrintableBlock(names[i], blocks[i]);
    }
    LinesSplit(header);
    VolumesSplit(volumes);
    hide Printable, IsBlock, HeaderLine, IsVolumes, Split, Join, BlockLines, StripBlank;
    PartsText(h, b, v);
    BlocksText(blocks);
    BlockLinesSame(blocks);
    Regroup(header + [""] + ["services:"], Split(b, '\n'), Split(v, '\n'));
  }

  lemma Regroup(start: seq<string>, middle: seq<string>, end: seq<string>)
    ensures start + middle + [""] + end + [""] == start + (middle + [""]) + (end + [""])
  {
  }

  lemma ThreeParts(p: Parser, a: seq<string>, b: seq<string>, c: seq<string>)
    ensures Steps(p, a + b + c) == Steps(Steps(Steps(p, a), b), c)
  {
    hide Steps;
    StepsConcat(p, a, b);
    StepsConcat(p, a + b, c);
  }

  /** Parsing its lines gives back its services and its volumes section. */
  lemma LinesParsed(header: seq<string>, names: seq<string>, blocks: seq<seq<string>>, vols: seq<string>)
    requires forall i :: 0 <= i < |header| ==> HeaderLine(header[i])
    requires |names| == |blocks| > 0 && forall i :: 0 <= i < |names| ==> IsBlock(names[i], blocks[i])
    requires vols != [] ==> IsVolumes(vols)
    ensures var tail := (if vols == [] then [""] else vols) + [""];
            var r := Flush(Steps(START, header + [""] + ["services:"] + BlockLines(blocks) + tail));
            && r.services == AddAll(map[], names, blocks)
            && r.volumes == if vols == [] then None else Some(vols + [""])
  {
    hide Steps, Step, Flush, BlockLines, IsBlock, HeaderLine, IsVolumes, AddAll, AllSpace;
    var last := |blocks| - 1;
    var opening, tail := header + [""] + ["services:"], (if vols == [] then [""] else vols) + [""];
    var p := START.(section := Some("services"));
    OpeningParsed(header);
    ThreeParts(START, opening, BlockLines(blocks), tail);
    BlocksParsed(p, names, blocks);
    var q := Steps(p, BlockLines(blocks));
    BlockEnds(names[last], blocks[last]);
    EndParsed(q, blocks[last], vols);
  }

  lemma AssembledParsed(header: seq<string>, names: seq<string>, blocks: seq<seq<string>>, volumes: seq<string>)
    requires header != [] && forall i :: 0 <= i < |header| ==> HeaderLine(header[i])
    requires |names| == |blocks| > 0 && forall i :: 0 <= i < |names| ==> IsBlock(names[i], blocks[i])
    requires volumes != [] ==> IsVolumes(volumes)
    ensures var vols := StripBlank(volumes);
            Parse(Assemble(header, blocks, volumes))
              == (AddAll(map[], names, blocks), if vols == [] then [] else vols + [""])
  {
    hide Steps, Flush, BlockLines, IsBlock, HeaderLine, IsVolumes, StripBlank, Assemble, AddAll;
    AssembledLines(header, names, blocks, volumes);
    VolumesSplit(volumes);
    LinesParsed(header, names, blocks, StripBlank(volumes));
  }

  lemma BlockEnds(name: string, block: seq<string>)
    requires IsBlock(name, block)
    ensures block != [] && !AllSpace(block[|block| - 1])
  {
  }

  lemma {:induction false} AddAllHas(services: map<string, seq<string>>, names: seq<string>, blocks: seq<seq<string>>)
    requires |names| == |blocks| && forall i, j :: 0 <= i < j < |names| ==> names[i] != names[j]
    ensures var r := AddAll(services, names, blocks);
            && (forall i :: 0 <= i < |names| ==> names[i] in r && r[names[i]] == blocks[i])
            && (forall name <- r :: name in services || name in names)
  {
    if names != [] {
      AddAllHas(services, names[..|names| - 1], blocks[..|names| - 1]);
    }
  }

  lemma ServicesDistinct(editor: string)
    requires editor !in SHARED_SERVICES
    ensures var names := [editor] + SHARED_SERVICES;
            forall i, j :: 0 <= i < j < |names| ==> names[i] != names[j]
  {
    var shared := SHARED_SERVICES;
    assert |shared[0]| == 8 && |shared[1]| == 6 && |shared[2]| == 6 && |shared[3]| == 14 && |shared[4]| == 13;
    assert shared[1][0] != shared[2][0];
    assert forall k :: 0 <= k < |shared| ==> shared[k] in shared;
  }

  /** Reading the generated file back gives exactly the editor's service and the shared
      services, each with the lines it has in the root file but for the prefixed
      container names, and the root file's volumes section, up to blank lines at its
      end. There is a generated file exactly when no shared service is missing. */
  lemma {:induction false} RoundTrip(template: Template, root: string)
    requires template.Valid()
    ensures var (services, volumes) := Parse(root);
            var generated := Generate(template, root);
            && (generated.Some? <==> forall name <- SHARED_SERVICES :: name in services)
            && (generated.Some? ==>
                  var (again, vols) := Parse(generated.value);
                  && again.Keys == {template.editor} + (set name <- SHARED_SERVICES)
                  && again[template.editor] == template.lines
                  && (forall name <- SHARED_SERVICES :: again[name] == PrefixNames(services[name]))
                  && StripBlank(vols) == StripBlank(volumes))
  {
    var (services, volumes) := Parse(root);
    MissingNone(services, SHARED_SERVICES);
    if Generate(template, root).Some? {
      ParsedBlocks(root);
      PrefixedBlocks(services, SHARED_SERVICES);
      ServicesDistinct(template.editor);
      VolumesBack(volumes);
      RoundTripOf(template.header, template.editor, template.lines, SHARED_SERVICES, services, volumes);
    }
  }

  lemma VolumesBack(volumes: seq<string>)
    requires volumes != [] ==> IsVolumes(volumes)
    ensures var vols := StripBlank(volumes);
            StripBlank(if vols == [] then [] else vols + [""]) == vols
  {
    if volumes != [] {
      StripKeepsVolumes(volumes);
    }
  }

  lemma RoundTripOf(header: seq<string>, first: string, lines: seq<string>, shared: seq<string>,
                    services: map<string, seq<string>>, volumes: seq<string>)
    requires header != [] && forall i :: 0 <= i < |header| ==> HeaderLine(header[i])
    requires IsBlock(first, lines)
    requires forall name <- shared :: name in services
    requires forall i :: 0 <= i < |shared| ==> IsBlock(shared[i], Blocks(services, shared)[i])
    requires forall i, j :: 0 <= i < j < |shared| + 1 ==> ([first] + shared)[i] != ([first] + shared)[j]
    requires volumes != [] ==> IsVolumes(volumes)
    ensures var (again, vols) := Parse(Assemble(header, [lines] + Blocks(services, shared), volumes));
            && again.Keys == {first} + (set name <- shared)
            && again[first] == lines
            && (forall name <- shared :: again[name] == PrefixNames(services[name]))
            && StripBlank(vols) == StripBlank(volumes)
  {
    hide Parse, Assemble, IsBlock, HeaderLine, IsVolumes, StripBlank, AddAll, Prefix;
    var names, blocks := [first] + shared, [lines] + Blocks(services, shared);
    forall i | 0 <= i < |names|
      ensures IsBlock(names[i], blocks[i])
    {
      if i > 0 {
        assert names[i] == shared[i - 1];
      }
    }
    AssembledParsed(header, names, blocks, volumes);
    VolumesBack(volumes);
    ServicesBack(first, lines, shared, services);
  }

  lemma ServicesBack(first: string, lines: seq<string>, shared: seq<string>, services: map<string, seq<string>>)
    requires forall name <- shared :: name in services
    requires forall i, j :: 0 <= i < j < |shared| + 1 ==> ([first] + shared)[i] != ([first] + shared)[j]
    ensures var again := AddAll(map[], [first] + shared, [lines] + Blocks(services, shared));
            && again.Keys == {first} + (set name <- shared)
            && again[first] == lines
            && (forall name <- shared :: again[name] == PrefixNames(services[name]))
  {
    hide AddAll, Prefix, PrefixNames;
    var names, blocks := [first] + shared, [lines] + Blocks(services, shared);
    AddAllHas(map[], names, blocks);
    var again := AddAll(map[], names, blocks);
    assert names[0] == first && blocks[0] == lines;
    forall name | name in shared
      ensures name in again && again[name] == PrefixNames(services[name])
    {
      var i :| 0 <= i < |shared| && shared[i] == name;
      assert names[i + 1] == name && blocks[i + 1] == Blocks(services, shared)[i];
    }
    KeysBack(first, shared, again.Keys);
  }

  lemma KeysBack(first: string, shared: seq<string>, keys: set<string>)
    requires first in keys && forall name <- shared :: name in keys
    requires forall name <- keys :: name in [first] + shared
    ensures keys == {first} + (set name <- shared)
  {
  }
}
