/**
 * The terminal simulator: a command table, `executeCommand`'s dispatch on
 * the trimmed, lower-cased input, the submit handler, up/down history
 * navigation with index -1 for fresh input, and the Clear button.
 *
 * The table's outputs are appended in table order; `date`'s single line is
 * the page-load date text, passed in as a parameter.
 */
module TerminalSim {
  import opened Wrappers
  import opened JsText

  datatype LineKind = CommandLine | OutputLine | ErrorLine | SystemLine

  datatype Line = Line(kind: LineKind, content: string)

  /** The three system lines the terminal starts with and returns to on Clear. */
  const Banner: seq<Line> := [
    Line(SystemLine, "CyberSec Terminal Simulator v1.0"),
    Line(SystemLine, "Type 'help' for available commands"),
    Line(SystemLine, "")
  ]

  const HelpHint: string := "Type 'help' for available commands"

  /** A command table: the lines each command prints, keyed by lower-case command text. */
  type Table = map<string, seq<string>>

  /** The keys of the page's command table. */
  const Names: set<string> :=
    {"help", "ls", "pwd", "whoami", "date", "cat passwords.txt", "cat system_info.txt",
     "nmap", "hashcat", "wireshark", "security"}

  /** The page's command table; `date` is the page-load date text. */
  function Commands(date: string): (commands: Table)
    ensures commands.Keys == Names
  {
    map name | name in Names :: Output(name, date)
  }

  /** The lines the page's table holds for `name`. */
  function Output(name: string, date: string): seq<string> {
    if name == "help" then [
        "Available commands:",
        "  help          - Show this help message",
        "  ls            - List directory contents",
        "  pwd           - Print working directory",
        "  whoami        - Display current user",
        "  date          - Show current date and time",
        "  clear         - Clear the terminal",
        "  cat <file>    - Display file contents",
        "  nmap          - Network scanning simulation",
        "  hashcat       - Password cracking simulation",
        "  wireshark     - Network analysis simulation",
        "  cube          - Display 3D security cube",
        "  security      - Run security assessment",
        "  exit          - Exit terminal"
      ]
    else if name == "ls" then [
        "total 8",
        "drwxr-xr-x  2 user user 4096 Jan 15 10:30 documents",
        "drwxr-xr-x  2 user user 4096 Jan 15 10:30 logs",
        "-rw-r--r--  1 user user  156 Jan 15 10:25 passwords.txt",
        "-rw-r--r--  1 user user  892 Jan 15 10:20 network_scan.log",
        "-rwxr-xr-x  1 user user 2048 Jan 15 10:15 security_tool",
        "-rw-r--r--  1 user user  445 Jan 15 10:10 system_info.txt"
      ]
    else if name == "pwd" then ["/home/cybersec/workspace"]
    else if name == "whoami" then ["cybersec"]
    else if name == "date" then [date]
    else if name == "cat passwords.txt" then [
        "# Common weak passwords found in breach:",
        "123456",
        "password",
        "admin",
        "qwerty",
        "letmein",
        "welcome",
        "monkey",
        "dragon",
        "",
        "WARNING: These passwords were cracked in under 1 second!"
      ]
    else if name == "cat system_info.txt" then [
        "System Security Assessment Report",
        "================================",
        "OS: Ubuntu 20.04 LTS",
        "Kernel: 5.4.0-74-generic",
        "Architecture: x86_64",
        "Last Security Update: 2 days ago",
        "",
        "Security Status: NEEDS ATTENTION",
        "- Firewall: ENABLED",
        "- Antivirus: OUTDATED",
        "- SSH: ENABLED (Port 22)",
        "- Open Ports: 22, 80, 443, 3306"
      ]
    else if name == "nmap" then [
        "Starting Nmap scan simulation...",
        "",
        "Nmap scan report for target.local (192.168.1.100)",
        "Host is up (0.0012s latency).",
        "",
        "PORT     STATE SERVICE",
        "22/tcp   open  ssh",
        "80/tcp   open  http",
        "443/tcp  open  https",
        "3306/tcp open  mysql",
        "",
        "Nmap done: 1 IP address (1 host up) scanned in 2.45 seconds"
      ]
    else if name == "hashcat" then [
        "hashcat (v6.2.5) starting...",
        "",
        "Attempting to crack MD5 hashes...",
        "",
        "5d41402abc4b2a76b9719d911017c592:hello",
        "098f6bcd4621d373cade4e832627b4f6:test",
        "e99a18c428cb38d5f260853678922e03:abc123",
        "",
        "Session..........: hashcat",
        "Status...........: Cracked",
        "Hash.Mode........: 0 (MD5)",
        "Time.Started.....: Mon Jan 15 10:30:00 2024",
        "Speed.#1.........:   234.5 MH/s",
        "",
        "Cracked 3/3 hashes in 0.02 seconds"
      ]
    else if name == "wireshark" then [
        "Wireshark network capture simulation",
        "====================================",
        "",
        "Capturing on interface eth0...",
        "",
        "Time     Source          Destination     Protocol Info",
        "0.000000 192.168.1.10    192.168.1.1     TCP      [SYN] Seq=0",
        "0.001234 192.168.1.1     192.168.1.10    TCP      [SYN, ACK] Seq=0 Ack=1",
        "0.001456 192.168.1.10    192.168.1.1     TCP      [ACK] Seq=1 Ack=1",
        "0.002000 192.168.1.10    192.168.1.1     HTTP     GET / HTTP/1.1",
        "0.005678 192.168.1.1     192.168.1.10    HTTP     HTTP/1.1 200 OK",
        "",
        "Suspicious activity detected:",
        "- Multiple failed SSH attempts from 192.168.1.50",
        "- Unusual DNS queries to suspicious domains",
        "- Large data transfer to external IP"
      ]
    else if name == "security" then [
        "CyberSec Security Assessment Tool v2.1",
        "======================================",
        "",
        "Running comprehensive security scan...",
        "",
        "[\U{2713}] Checking system vulnerabilities...",
        "[\U{2713}] Analyzing network configuration...",
        "[\U{2713}] Reviewing user permissions...",
        "[!] Scanning for malware...",
        "[\U{2713}] Validating security policies...",
        "",
        "SECURITY ASSESSMENT RESULTS:",
        "============================",
        "",
        "Overall Security Score: 7.2/10",
        "",
        "CRITICAL ISSUES (1):",
        "- Outdated antivirus definitions",
        "",
        "WARNINGS (3):",
        "- SSH running on default port",
        "- MySQL accessible from network",
        "- Weak password policy detected",
        "",
        "RECOMMENDATIONS:",
        "1. Update antivirus definitions immediately",
        "2. Change SSH to non-standard port",
        "3. Implement stronger password requirements",
        "4. Enable two-factor authentication",
        "5. Regular security training for users"
      ]
    else []
  }

  /** The lines `cube` prints after showing the cube. */
  const CubeText: seq<string> := [
    "Displaying 3D Security Cube...",
    "The cube represents the multi-layered approach to cybersecurity:",
    "- Physical Security (Red face)",
    "- Network Security (Green face)",
    "- Application Security (Blue face)",
    "- Data Security (Yellow face)",
    "- Identity Security (Magenta face)",
    "- Operational Security (Cyan face)"
  ]

  /** Text lines as output lines, in order. */
  function Outputs(texts: seq<string>): (r: seq<Line>)
    ensures |r| == |texts|
    ensures forall i :: 0 <= i < |texts| ==> r[i] == Line(OutputLine, texts[i])
  {
    seq(|texts|, i requires 0 <= i < |texts| => Line(OutputLine, texts[i]))
  }

  /** The text `executeCommand` dispatches on. */
  function Normalize(command: string): string {
    Lower(Trim(command))
  }

  /** What dispatch sees is already trimmed and lower case, so normalizing it again changes nothing. */
  lemma NormalizeNormal(command: string)
    ensures Trim(Normalize(command)) == Normalize(command)
    ensures Lower(Normalize(command)) == Normalize(command)
  {
    NormalizeTrimmed(command);
    LowerTwice(Trim(command));
  }

  lemma NormalizeTrimmed(command: string)
    ensures Trim(Lower(Trim(command))) == Lower(Trim(command))
  {
    var t := Trim(command);
    assert t == [] || (!IsSpace(t[0]) && !IsSpace(t[|t| - 1]));
    TrimLowered(t);
  }

  /** The inputs `executeCommand` handles before it consults the table. */
  predicate Special(cmd: string) {
    cmd == "" || cmd == "clear" || cmd == "exit" || cmd == "cube"
  }

  /** The commands the terminal recognises: the special ones and the table's keys. */
  predicate Known(cmd: string, commands: Table) {
    Special(cmd) || cmd in commands
  }

  datatype Terminal = Terminal(lines: seq<Line>, input: string, history: seq<string>, index: int, showCube: bool)

  const Initial: Terminal := Terminal(Banner, "", [], -1, false)

  /** The lines a command adds after its echo (`clear` aside, which empties the list). */
  function Response(cmd: string, commands: Table): (r: seq<Line>)
  {
    if cmd == "" || cmd == "clear" then []
    else if cmd == "exit" then [Line(SystemLine, "Terminal session ended.")]
    else if cmd == "cube" then Outputs(CubeText)
    else if cmd in commands then Outputs(commands[cmd])
    else [Line(ErrorLine, "Command not found: " + cmd), Line(OutputLine, HelpHint)]
  }

  /**
   * `executeCommand` with the table as an explicit map. The echo line comes
   * first; `clear` then discards everything, the echo included.
   */
  function Execute(t: Terminal, command: string, commands: Table): (r: Terminal)
    ensures r.input == t.input && r.history == t.history && r.index == t.index
    ensures r.lines == [] <==> Normalize(command) == "clear"
    ensures Normalize(command) != "clear" ==>
      |r.lines| > |t.lines| && r.lines[..|t.lines|] == t.lines
      && r.lines[|t.lines|] == Line(CommandLine, "$ " + command)
    ensures r.showCube <==> t.showCube || Normalize(command) == "cube"
  {
    var cmd := Normalize(command);
    var echoed := t.lines + [Line(CommandLine, "$ " + command)];
    if cmd == "clear" then t.(lines := [])
    else t.(showCube := t.showCube || cmd == "cube", lines := echoed + Response(cmd, commands))
  }

  /** What the commands handled in code print after their echo. */
  lemma ResponseSpecial(commands: Table)
    ensures Response("", commands) == []
    ensures Response("exit", commands) == [Line(SystemLine, "Terminal session ended.")]
    ensures |Response("cube", commands)| == 8
  {
  }

  /** A table command prints its entry's lines, in table order, as output lines. */
  lemma ResponseTable(cmd: string, commands: Table)
    requires cmd in commands && !Special(cmd)
    ensures |Response(cmd, commands)| == |commands[cmd]|
    ensures forall i :: 0 <= i < |commands[cmd]| ==> Response(cmd, commands)[i] == Line(OutputLine, commands[cmd][i])
  {
  }

  /** An unknown command prints the error and the hint. */
  lemma ResponseUnknown(cmd: string, commands: Table)
    requires !Known(cmd, commands)
    ensures Response(cmd, commands) == [Line(ErrorLine, "Command not found: " + cmd), Line(OutputLine, HelpHint)]
  {
  }

  /** An error line is printed exactly for the commands the terminal does not know. */
  lemma ErrorIffUnknown(cmd: string, commands: Table)
    ensures (exists i :: 0 <= i < |Response(cmd, commands)| && Response(cmd, commands)[i].kind == ErrorLine)
            <==> !Known(cmd, commands)
  {
    var r := Response(cmd, commands);
    if !Known(cmd, commands) {
      assert r[0].kind == ErrorLine;
    } else if cmd == "cube" || (cmd != "" && cmd != "clear" && cmd != "exit") {
      assert forall i :: 0 <= i < |r| ==> r[i].kind == OutputLine;
    }
  }

  /** Only the echo line depends on the raw text: inputs equal up to surrounding whitespace and letter case run the same command. */
  lemma SameCommand(t: Terminal, c1: string, c2: string, commands: Table)
    requires Normalize(c1) == Normalize(c2) != "clear"
    ensures Execute(t, c1, commands).showCube == Execute(t, c2, commands).showCube
    ensures Execute(t, c1, commands).lines[|t.lines| + 1..] == Response(Normalize(c1), commands)
    ensures Execute(t, c2, commands).lines[|t.lines| + 1..] == Response(Normalize(c1), commands)
  {
    var e1 := t.lines + [Line(CommandLine, "$ " + c1)];
    var e2 := t.lines + [Line(CommandLine, "$ " + c2)];
    assert (e1 + Response(Normalize(c1), commands))[|t.lines| + 1..] == Response(Normalize(c1), commands);
    assert (e2 + Response(Normalize(c2), commands))[|t.lines| + 1..] == Response(Normalize(c2), commands);
  }

  /** Apart from `clear`, a command appends its echo and then its response. */
  lemma ExecuteAppends(t: Terminal, command: string, commands: Table)
    requires Normalize(command) != "clear"
    ensures Execute(t, command, commands).lines
            == t.lines + [Line(CommandLine, "$ " + command)] + Response(Normalize(command), commands)
  {
  }

  lemma Concat3(a: seq<Line>, x: Line, b: seq<Line>)
    requires |b| == 2
    ensures a + [x] + b == a + [x, b[0], b[1]]
  {
  }

  /** A command the terminal does not know is echoed, reported as not found, and followed by the help hint. */
  lemma UnknownReported(t: Terminal, command: string, commands: Table)
    requires !Known(Normalize(command), commands)
    ensures Execute(t, command, commands).lines
            == t.lines + [Line(CommandLine, "$ " + command),
                          Line(ErrorLine, "Command not found: " + Normalize(command)),
                          Line(OutputLine, HelpHint)]
  {
    ResponseUnknown(Normalize(command), commands);
    ExecuteAppends(t, command, commands);
    Concat3(t.lines, Line(CommandLine, "$ " + command), Response(Normalize(command), commands));
  }

  /** A table with the page's keys has none of the special inputs as a key, and knows every command the help text lists by name. */
  lemma PageTable(commands: Table)
    requires commands.Keys == Names
    ensures forall k :: k in commands ==> !Special(k)
    ensures forall cmd :: cmd in ["help", "ls", "pwd", "whoami", "date", "clear", "nmap",
                                  "hashcat", "wireshark", "cube", "security", "exit"]
                          ==> Known(cmd, commands)
  {
  }

  /** Lower-casing trimmed text leaves it trimmed. */
  lemma TrimLowered(t: string)
    requires t == [] || (!IsSpace(t[0]) && !IsSpace(t[|t| - 1]))
    ensures Trim(Lower(t)) == Lower(t)
  {
    if t != [] {
      LowerKeepsSpace(t[0]);
      LowerKeepsSpace(t[|t| - 1]);
    }
  }

  /** Lower-casing twice is lower-casing once. */
  lemma LowerTwice(s: string)
    ensures Lower(Lower(s)) == Lower(s)
  {
  }

  /** Lower-casing neither makes nor unmakes whitespace. */
  lemma LowerKeepsSpace(c: char)
    ensures IsSpace(AsciiLower(c)) <==> IsSpace(c)
  {
  }

  /** Text with no whitespace at either end and no upper-case letter dispatches as itself. */
  lemma NormalizePlain(s: string)
    requires s != [] && !IsSpace(s[0]) && !IsSpace(s[|s| - 1])
    requires forall i :: 0 <= i < |s| ==> !IsAsciiUpper(s[i])
    ensures Normalize(s) == s
  {
  }

  /** Text with no whitespace at either end is only lower-cased. */
  lemma NormalizeUnpadded(s: string)
    requires s != [] && !IsSpace(s[0]) && !IsSpace(s[|s| - 1])
    ensures Normalize(s) == Lower(s)
  {
  }

  /** Capitals are normalised away before dispatch: `Foo` runs as the unknown command `foo`. */
  lemma UnknownExample(commands: Table)
    requires commands.Keys == Names
    ensures Normalize("Foo") == "foo" && !Known("foo", commands)
  {
    NormalizeUnpadded("Foo");
    assert Lower("Foo") == "foo";
  }

  /** The lookup as written: a plain object, whose inherited members also answer the lookup. */
  datatype Lookup = Own(output: seq<string>) | Inherited | Absent

  /**
   * The members every object inherits whose names are already lower case,
   * so that a lower-cased command can reach them: they are truthy and have
   * no `output`.
   */
  const InheritedNames: set<string> := {"constructor", "__proto__"}

  function LookupAsWritten(cmd: string, commands: Table): (r: Lookup)
    ensures r.Own? <==> cmd in commands
    ensures r.Inherited? <==> cmd !in commands && cmd in InheritedNames
  {
    if cmd in commands then Own(commands[cmd])
    else if cmd in InheritedNames then Inherited
    else Absent
  }

  /** `executeCommand` as written: None where `cmd.output.forEach` throws on an inherited member. */
  function ExecuteAsWritten(t: Terminal, command: string, commands: Table): (r: Option<Terminal>)
    ensures r.Some? ==> r.value == Execute(t, command, commands)
    ensures r.None? ==> Normalize(command) in InheritedNames && Normalize(command) !in commands
  {
    var cmd := Normalize(command);
    if Special(cmd) then Some(Execute(t, command, commands))
    else match LookupAsWritten(cmd, commands)
      case Inherited => None
      case _ => Some(Execute(t, command, commands))
  }

  /** Away from the two inherited names, the code as written and the explicit table agree. */
  lemma AsWrittenAgrees(t: Terminal, command: string, commands: Table)
    requires Normalize(command) !in InheritedNames
    ensures ExecuteAsWritten(t, command, commands) == Some(Execute(t, command, commands))
  {
  }

  /** As written, a command naming an inherited member throws, where the explicit table reports it as not found. */
  lemma InheritedThrows(t: Terminal, command: string, commands: Table)
    requires Normalize(command) in InheritedNames && Normalize(command) !in commands
    ensures ExecuteAsWritten(t, command, commands) == None
    ensures Execute(t, command, commands).lines
            == t.lines + [Line(CommandLine, "$ " + command),
                          Line(ErrorLine, "Command not found: " + Normalize(command)),
                          Line(OutputLine, HelpHint)]
  {
    InheritedName(Normalize(command), commands);
    UnknownReported(t, command, commands);
  }

  lemma InheritedName(cmd: string, commands: Table)
    requires cmd in InheritedNames && cmd !in commands
    ensures !Special(cmd) && !Known(cmd, commands) && LookupAsWritten(cmd, commands) == Inherited
  {
  }

  /** Typed as it is, `constructor` dispatches as itself. */
  lemma ConstructorDispatches()
    ensures Normalize("constructor") == "constructor"
  {
    NormalizePlain("constructor");
  }

  /** Typed as it is, `__proto__` dispatches as itself. */
  lemma ProtoDispatches()
    ensures Normalize("__proto__") == "__proto__"
  {
    NormalizePlain("__proto__");
  }

  /** The page's table has neither inherited name as a key, so both reach the inherited member. */
  lemma InheritedNotInTable(commands: Table)
    requires commands.Keys == Names
    ensures forall name :: name in InheritedNames ==> name !in commands
  {
  }

  /** History navigation keeps the index at -1 (fresh input) or on an entry. */
  predicate Inv(t: Terminal) {
    -1 <= t.index < |t.history|
  }

  /** `handleSubmit`: blank input is ignored; otherwise the raw input is run and recorded, and the prompt starts afresh. */
  function Submit(t: Terminal, commands: Table): (r: Terminal)
    ensures Trim(t.input) == [] ==> r == t
    ensures Trim(t.input) != [] ==>
      r.history == t.history + [t.input] && r.input == "" && r.index == -1
      && r.lines == Execute(t, t.input, commands).lines
  {
    if Trim(t.input) == [] then t
    else Execute(t, t.input, commands).(history := t.history + [t.input], input := "", index := -1)
  }

  function Max(a: int, b: int): int {
    if a < b then b else a
  }

  /** ArrowUp: from fresh input to the newest entry, then one older each time, stopping at the oldest. */
  function Up(t: Terminal): (r: Terminal)
    requires Inv(t)
    ensures Inv(r)
    ensures r.history == t.history && r.lines == t.lines && r.showCube == t.showCube
    ensures t.history == [] ==> r == t
    ensures t.history != [] ==> 0 <= r.index && r.input == r.history[r.index]
    ensures t.history != [] && t.index == -1 ==> r.index == |t.history| - 1
    ensures t.index > 0 ==> r.index == t.index - 1
    ensures t.index == 0 ==> r.index == 0
  {
    if t.history == [] then t
    else
      var i := if t.index == -1 then |t.history| - 1 else Max(0, t.index - 1);
      t.(index := i, input := t.history[i])
  }

  /** ArrowDown: one newer entry each time; past the newest, back to empty fresh input. */
  function Down(t: Terminal): (r: Terminal)
    requires Inv(t)
    ensures Inv(r)
    ensures r.history == t.history && r.lines == t.lines && r.showCube == t.showCube
    ensures t.index == -1 ==> r == t
    ensures 0 <= t.index == |t.history| - 1 ==> r.index == -1 && r.input == ""
    ensures 0 <= t.index < |t.history| - 1 ==> r.index == t.index + 1 && r.input == t.history[r.index]
  {
    if t.index == -1 then t
    else
      var i := t.index + 1;
      if i >= |t.history| then t.(index := -1, input := "")
      else t.(index := i, input := t.history[i])
  }

  /** The Clear button: the banner again and no cube. */
  function Clear(t: Terminal): (r: Terminal)
    ensures r == Initial.(input := t.input, history := t.history, index := t.index)
  {
    t.(lines := Banner, showCube := false)
  }

  /** ArrowDown undoes ArrowUp, except that fresh input comes back empty. */
  lemma DownUndoesUp(t: Terminal)
    requires Inv(t) && t.history != []
    ensures t.index == -1 ==> Down(Up(t)).index == -1 && Down(Up(t)).input == ""
    ensures t.index > 0 ==> Down(Up(t)).index == t.index && Down(Up(t)).input == t.history[t.index]
  {
  }

  /** ArrowUp undoes ArrowDown below the newest entry. */
  lemma UpUndoesDown(t: Terminal)
    requires Inv(t) && 0 <= t.index < |t.history| - 1
    ensures Up(Down(t)).index == t.index && Up(Down(t)).input == t.history[t.index]
  {
  }

  /** ArrowUp pressed `k` times. */
  function Ups(t: Terminal, k: nat): (r: Terminal)
    requires Inv(t)
    ensures Inv(r)
    decreases k
  {
    if k == 0 then t else Ups(Up(t), k - 1)
  }

  /** From fresh input, `k + 1` presses of ArrowUp recall the `k`-th newest command, or the oldest once `k` runs past it. */
  lemma UpsRecall(t: Terminal, k: nat)
    requires Inv(t) && t.index == -1 && t.history != []
    ensures Ups(t, k + 1).index == Max(0, |t.history| - 1 - k)
    ensures Ups(t, k + 1).input == t.history[Max(0, |t.history| - 1 - k)]
  {
    UpsFrom(Up(t), k);
  }

  lemma {:induction false} UpsFrom(t: Terminal, k: nat)
    requires Inv(t) && 0 <= t.index && t.input == t.history[t.index]
    ensures Ups(t, k).index == Max(0, t.index - k)
    ensures Ups(t, k).input == t.history[Max(0, t.index - k)]
    decreases k
  {
    if k > 0 {
      UpsFrom(Up(t), k - 1);
    }
  }

  /** ArrowUp right after a submission recalls the command just run. */
  lemma UpRecallsLast(t: Terminal, commands: Table)
    requires Inv(t) && Trim(t.input) != []
    ensures Up(Submit(t, commands)).input == t.input
  {
  }

  datatype Event = Type(text: string) | Enter | ArrowUp | ArrowDown | ClearButton

  function Step(t: Terminal, e: Event, commands: Table): (r: Terminal)
    requires Inv(t)
  {
    match e
    case Type(text) => t.(input := text)
    case Enter => Submit(t, commands)
    case ArrowUp => Up(t)
    case ArrowDown => Down(t)
    case ClearButton => Clear(t)
  }

  /** Every event keeps the history index in range; only a non-blank submission adds to the history. */
  lemma StepInv(t: Terminal, e: Event, commands: Table)
    requires Inv(t)
    ensures Inv(Step(t, e, commands))
    ensures Step(t, e, commands).history == t.history
            || (e == Enter && Trim(t.input) != [] && Step(t, e, commands).history == t.history + [t.input])
  {
  }

  /** Events applied in order. */
  function Run(t: Terminal, events: seq<Event>, commands: Table): (r: Terminal)
    requires Inv(t)
    decreases |events|
  {
    if events == [] then t
    else
      StepInv(t, events[0], commands);
      Run(Step(t, events[0], commands), events[1..], commands)
  }

  /** Every recorded command has something besides whitespace. */
  predicate AllNonBlank(h: seq<string>) {
    forall i :: 0 <= i < |h| ==> Trim(h[i]) != []
  }

  /** No event records a blank command. */
  lemma StepNonBlank(t: Terminal, e: Event, commands: Table)
    requires Inv(t) && AllNonBlank(t.history)
    ensures AllNonBlank(Step(t, e, commands).history)
  {
    StepInv(t, e, commands);
    if Step(t, e, commands).history != t.history {
      AppendNonBlank(t.history, t.input);
    }
  }

  lemma AppendNonBlank(h: seq<string>, x: string)
    requires AllNonBlank(h) && Trim(x) != []
    ensures AllNonBlank(h + [x])
  {
    forall i | 0 <= i < |h| + 1 ensures Trim((h + [x])[i]) != [] {
      if i < |h| {
        assert (h + [x])[i] == h[i];
      }
    }
  }

  /** Any run keeps the index in range and the history a record of non-blank inputs only. */
  lemma {:induction false} RunInv(t: Terminal, events: seq<Event>, commands: Table)
    requires Inv(t) && AllNonBlank(t.history)
    ensures Inv(Run(t, events, commands))
    ensures AllNonBlank(Run(t, events, commands).history)
    decreases |events|
  {
    if events != [] {
      var s := Step(t, events[0], commands);
      StepInv(t, events[0], commands);
      StepNonBlank(t, events[0], commands);
      RunInv(s, events[1..], commands);
      assert Run(t, events, commands) == Run(s, events[1..], commands);
    }
  }
}
