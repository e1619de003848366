/**
  The launcher's own logic (main.cc): finding the command that follows
  the icon argument on the command line, telling a ":name" switch from an
  image path, resolving a switch against the palette, and the Up/Down
  selection of the interactive browser. The command line, argv, file
  existence, file-loaded icons and key presses are inputs.
 */
module App {
  import opened Gdi
  import opened IconCache
  import opened ColoredIcons

  datatype Option<T> = None | Some(value: T)

  /** needle occurs in hay starting at index i. */
  predicate OccursAt(hay: string, needle: string, i: int)
  {
    0 <= i && i + |needle| <= |hay| && hay[i..i + |needle|] == needle
  }

  /** i is the first index at or after from where needle occurs. */
  ghost predicate FirstAt(hay: string, needle: string, from: int, i: int)
  {
    from <= i && OccursAt(hay, needle, i) && forall k :: from <= k < i ==> !OccursAt(hay, needle, k)
  }

  /** wcsstr applied at offset from: the first occurrence of needle at or after from. */
  function Find(hay: string, needle: string, from: nat): (r: Option<nat>)
    requires from <= |hay|
    ensures r.Some? ==> FirstAt(hay, needle, from, r.value)
    ensures r.None? ==> forall k :: from <= k ==> !OccursAt(hay, needle, k)
    decreases |hay| - from
  {
    if from + |needle| > |hay| then None
    else if hay[from..from + |needle|] == needle then Some(from)
    else Find(hay, needle, from + 1)
  }

  lemma FirstAtUnique(hay: string, needle: string, from: int, i: int, j: int)
    requires FirstAt(hay, needle, from, i) && FirstAt(hay, needle, from, j)
    ensures i == j
  {
  }

  /** At most one leading double quote is skipped. */
  function DropQuote(s: string): (r: string)
    ensures |s| - 1 <= |r| <= |s| && r == s[|s| - |r|..]
    ensures |r| < |s| <==> |s| > 0 && s[0] == '"'
  {
    if |s| > 0 && s[0] == '"' then s[1..] else s
  }

  predicate AllSpaces(s: string)
  {
    forall k :: 0 <= k < |s| ==> s[k] == ' '
  }

  /** The text after the icon argument, once a leading quote is dropped. */
  function Tail(cmdLine: string, iconFile: string, at: int): string
    requires 0 <= at && at + |iconFile| <= |cmdLine|
  {
    DropQuote(cmdLine[at + |iconFile|..])
  }

  /** The tail is a suffix of the command line. */
  lemma TailIsSuffix(cmdLine: string, iconFile: string, at: int)
    requires 0 <= at && at + |iconFile| <= |cmdLine|
    ensures Tail(cmdLine, iconFile, at) == cmdLine[|cmdLine| - |Tail(cmdLine, iconFile, at)|..]
  {
    var after := cmdLine[at + |iconFile|..];
    var t := DropQuote(after);
    assert t == after[|after| - |t|..];
    assert after[|after| - |t|..] == cmdLine[|cmdLine| - |t|..];
  }

  /** Skipping a quote at index start of the line is DropQuote of the text from start. */
  lemma SkipQuote(cmdLine: string, start: int)
    requires 0 <= start <= |cmdLine|
    ensures cmdLine[if start < |cmdLine| && cmdLine[start] == '"' then start + 1 else start..] == DropQuote(cmdLine[start..])
  {
    if start < |cmdLine| && cmdLine[start] == '"' {
      assert cmdLine[start + 1..] == cmdLine[start..][1..];
    }
  }

  /**
    What parse_arg_command produces: nothing when argv[0] is not in the
    command line or the icon argument is not found from there on;
    otherwise the tail after the icon argument, or "" when that tail is
    only spaces.
   */
  function ExpectedCommand(cmdLine: string, appPath: string, iconFile: string): (r: Option<string>)
    ensures r.Some? && r.value != "" ==>
              !AllSpaces(r.value) && |r.value| <= |cmdLine| && r.value == cmdLine[|cmdLine| - |r.value|..]
  {
    match Find(cmdLine, appPath, 0)
    case None => None
    case Some(a) =>
      match Find(cmdLine, iconFile, a)
      case None => None
      case Some(b) =>
        var t := Tail(cmdLine, iconFile, b);
        TailIsSuffix(cmdLine, iconFile, b);
        Some(if AllSpaces(t) then "" else t)
  }

  /**
    The meaning of ExpectedCommand, stated through the occurrences: it
    fails exactly when there is no first occurrence a of argv[0] with an
    occurrence of the icon argument at or after a; otherwise the command
    is the tail after the first such occurrence b, and it is empty
    exactly when that tail is all spaces.
   */
  lemma ExpectedCommandMeaning(cmdLine: string, appPath: string, iconFile: string)
    ensures ExpectedCommand(cmdLine, appPath, iconFile).None? <==>
              !exists a, b :: FirstAt(cmdLine, appPath, 0, a) && FirstAt(cmdLine, iconFile, a, b)
    ensures forall a, b :: FirstAt(cmdLine, appPath, 0, a) && FirstAt(cmdLine, iconFile, a, b) ==>
              && ExpectedCommand(cmdLine, appPath, iconFile).Some?
              && (ExpectedCommand(cmdLine, appPath, iconFile).value == "" <==> AllSpaces(Tail(cmdLine, iconFile, b)))
              && (ExpectedCommand(cmdLine, appPath, iconFile).value != "" ==>
                    ExpectedCommand(cmdLine, appPath, iconFile).value == Tail(cmdLine, iconFile, b))
  {
    var fa := Find(cmdLine, appPath, 0);
    forall a, b | FirstAt(cmdLine, appPath, 0, a) && FirstAt(cmdLine, iconFile, a, b)
      ensures ExpectedCommand(cmdLine, appPath, iconFile).Some?
      ensures ExpectedCommand(cmdLine, appPath, iconFile).value == "" <==> AllSpaces(Tail(cmdLine, iconFile, b))
      ensures ExpectedCommand(cmdLine, appPath, iconFile).value != "" ==>
                ExpectedCommand(cmdLine, appPath, iconFile).value == Tail(cmdLine, iconFile, b)
    {
      FirstAtUnique(cmdLine, appPath, 0, fa.value, a);
      var fb := Find(cmdLine, iconFile, a);
      FirstAtUnique(cmdLine, iconFile, a, fb.value, b);
    }
    if ExpectedCommand(cmdLine, appPath, iconFile).Some? {
      var fb := Find(cmdLine, iconFile, fa.value);
      assert FirstAt(cmdLine, appPath, 0, fa.value) && FirstAt(cmdLine, iconFile, fa.value, fb.value);
    }
  }

  /**
    parse_arg_command: locate argv[0], then the icon argument from there,
    skip one quote, and keep the tail unless it is only spaces.
   */
  method ParseArgCommand(cmdLine: string, argv: seq<string>, iconFile: string) returns (command: Option<string>)
    requires |argv| >= 1
    ensures command == ExpectedCommand(cmdLine, argv[0], iconFile)
  {
    var appPath := argv[0];
    var pos := Find(cmdLine, appPath, 0);
    if pos.None? {
      return None;
    }
    var at := Find(cmdLine, iconFile, pos.value);
    if at.None? {
      return None;
    }
    ExpectedCommandFound(cmdLine, appPath, iconFile, pos.value, at.value);
    var start := at.value + |iconFile|;
    SkipQuote(cmdLine, start);
    if start < |cmdLine| && cmdLine[start] == '"' {
      start := start + 1;
    }
    var rest := cmdLine[start..];
    var result := BlankToEmpty(rest);
    return Some(result);
  }

  /** The scan for a non-space character: an all-space tail becomes "", any other is kept. */
  method BlankToEmpty(rest: string) returns (result: string)
    ensures AllSpaces(rest) ==> result == ""
    ensures !AllSpaces(rest) ==> result == rest
  {
    result := "";
    var i := 0;
    while i < |rest|
      invariant 0 <= i <= |rest|
      invariant result == ""
      invariant forall k :: 0 <= k < i ==> rest[k] == ' '
    {
      if rest[i] != ' ' {
        result := rest;
        break;
      }
      i := i + 1;
    }
  }

  lemma ExpectedCommandFound(cmdLine: string, appPath: string, iconFile: string, a: nat, b: nat)
    requires Find(cmdLine, appPath, 0) == Some(a) && a <= |cmdLine| && Find(cmdLine, iconFile, a) == Some(b)
    ensures b + |iconFile| <= |cmdLine|
    ensures ExpectedCommand(cmdLine, appPath, iconFile) ==
              Some(if AllSpaces(Tail(cmdLine, iconFile, b)) then "" else Tail(cmdLine, iconFile, b))
  {
  }

  /** is_app_switch: the argument starts with ':'. */
  predicate IsAppSwitch(filename: string)
    ensures IsAppSwitch(filename) <==> ":" <= filename
  {
    |filename| > 0 && filename[0] == ':'
  }

  /** ":" + name is a switch and stripping the leading ':' gives name back. */
  lemma AppSwitchRoundTrip(name: string)
    ensures IsAppSwitch(":" + name) && (":" + name)[1..] == name
  {
  }

  /** The command run when none is given on the command line. */
  const DefaultCommand: string := "cmd"

  datatype ArgResult = Usage | FileNotExists(file: string) | Parsed(iconFile: string, command: string)

  /**
    parse_arg: argv comes from CommandLineToArgvW and fileExists stands
    for PathFileExists. Usage with no argument, an error for a missing
    image file, otherwise the icon argument and the command, which falls
    back to "cmd" when none was found or it was blank.
   */
  method ParseArg(cmdLine: string, argv: seq<string>, fileExists: string -> bool) returns (r: ArgResult)
    requires |argv| >= 1
    ensures |argv| == 1 <==> r.Usage?
    ensures r.FileNotExists? <==> |argv| > 1 && !IsAppSwitch(argv[1]) && !fileExists(argv[1])
    ensures r.FileNotExists? ==> r.file == argv[1]
    ensures r.Parsed? ==> r.iconFile == argv[1] && r.command != ""
    ensures r.Parsed? ==> match ExpectedCommand(cmdLine, argv[0], argv[1])
                          case Some(c) => r.command == if c == "" then DefaultCommand else c
                          case None => r.command == DefaultCommand
  {
    if |argv| == 1 {
      return Usage;
    }
    var iconFile := argv[1];
    if !IsAppSwitch(iconFile) && !fileExists(iconFile) {
      return FileNotExists(iconFile);
    }
    var command := ParseArgCommand(cmdLine, argv, iconFile);
    if command.None? || command.value == "" {
      return Parsed(iconFile, DefaultCommand);
    }
    return Parsed(iconFile, command.value);
  }

  /** i is the first palette entry named name. */
  ghost predicate FirstNamed(palette: seq<BuildinItem>, name: string, i: int)
  {
    0 <= i < |palette| && palette[i].name == name && forall k :: 0 <= k < i ==> palette[k].name != name
  }

  /**
    In the built-in palette the names are distinct, so the entry the
    first-match loop stops at is the only entry with that name.
   */
  lemma FirstNamedInPalette(name: string, i: int)
    requires 0 <= i < |Palette| && Palette[i].name == name
    ensures FirstNamed(Palette, name, i)
    ensures forall j :: 0 <= j < |Palette| && Palette[j].name == name ==> j == i
  {
    PaletteNamesDistinct();
  }

  /** The switch name that starts the interactive browser. */
  const BrowseSwitch: string := "browse"

  /**
    parse_app_switch: "browse" gives a null icon; otherwise the first
    palette entry with that name gives the icon get_icon returns for its
    colour; no entry gives false and touches nothing.
   */
  method ParseAppSwitch(name: string, ci: ColoredIcon) returns (ok: bool, icon: Handle)
    requires ci.Valid() && ci.Ready()
    modifies ci, ci.gdi
    ensures ci.Valid() && ci.Ready()
    ensures name == BrowseSwitch ==> ok && icon.Null? && ci.State() == old(ci.State()) && ci.gdi.live == old(ci.gdi.live)
    ensures name != BrowseSwitch ==> (ok <==> exists i :: 0 <= i < |ci.buildin| && ci.buildin[i].name == name)
    ensures name != BrowseSwitch && ok ==>
              exists i :: FirstNamed(ci.buildin, name, i) && GetIconStep(old(ci.State()), ci.buildin[i].ref, ci.State(), icon)
    ensures !ok ==> ci.State() == old(ci.State()) && ci.gdi.live == old(ci.gdi.live)
  {
    if name == BrowseSwitch {
      return true, Null;
    }
    var total := |ci.buildin|;
    var i := 0;
    while i < total
      invariant 0 <= i <= total
      invariant forall k :: 0 <= k < i ==> ci.buildin[k].name != name
      invariant ci.State() == old(ci.State()) && ci.gdi.live == old(ci.gdi.live)
    {
      var item := ci.buildin[i];
      if name == item.name {
        icon := ci.GetIcon(item.ref);
        assert FirstNamed(ci.buildin, name, i);
        return true, icon;
      }
      i := i + 1;
    }
    return false, Null;
  }

  datatype LoadResult = Loaded(icon: Handle) | ShowUsage | LoadFailed(file: string)

  /**
    load_app_icon: a ":name" argument is looked up without its ':' and
    shows the usage when the lookup fails; any other argument is an image
    file, and fileIcon is what loading it gave (null on failure).
   */
  method LoadAppIcon(iconFile: string, ci: ColoredIcon, fileIcon: Handle) returns (r: LoadResult)
    requires ci.Valid() && ci.Ready()
    modifies ci, ci.gdi
    ensures ci.Valid() && ci.Ready()
    ensures IsAppSwitch(iconFile) ==> !r.LoadFailed?
    ensures IsAppSwitch(iconFile) ==>
              (r.ShowUsage? <==> iconFile[1..] != BrowseSwitch && forall i :: 0 <= i < |ci.buildin| ==> ci.buildin[i].name != iconFile[1..])
    ensures IsAppSwitch(iconFile) && iconFile[1..] == BrowseSwitch ==> r == Loaded(Null)
    ensures IsAppSwitch(iconFile) && iconFile[1..] != BrowseSwitch && r.Loaded? ==>
              exists i :: FirstNamed(ci.buildin, iconFile[1..], i) && GetIconStep(old(ci.State()), ci.buildin[i].ref, ci.State(), r.icon)
    ensures !IsAppSwitch(iconFile) ==> r == (if fileIcon.Null? then LoadFailed(iconFile) else Loaded(fileIcon))
    ensures !IsAppSwitch(iconFile) || r.ShowUsage? ==> ci.State() == old(ci.State()) && ci.gdi.live == old(ci.gdi.live)
  {
    if IsAppSwitch(iconFile) {
      var ok, icon := ParseAppSwitch(iconFile[1..], ci);
      if ok {
        return Loaded(icon);
      }
      return ShowUsage;
    }
    if fileIcon.Null? {
      return LoadFailed(iconFile);
    }
    return Loaded(fileIcon);
  }

  /** Key codes read by _getch in the browser. */
  const KeyUp: int := 72
  const KeyDown: int := 80
  const EndOfText: int := 3
  const ArrowKey: int := 224

  datatype BrowseState = BrowseState(selected: nat, arrowKey: bool)

  /** What one key does: leave the browser, keep the selection, or move it (and show it). */
  datatype KeyOutcome = Exit | Stay(state: BrowseState) | Move(state: BrowseState)

  /**
    One pass of the browser's loop. An arrow prefix latches arrow mode
    for good, Ctrl+C leaves, and once in arrow mode Up and Down move the
    selection cyclically; every other key changes nothing. The cyclic
    step is written out here; CyclicSteps shows it is the modular
    arithmetic of the loop.
   */
  function KeyStep(total: nat, s: BrowseState, ch: int): (o: KeyOutcome)
    requires 0 < total && s.selected < total
    ensures o.Exit? <==> ch == EndOfText
    ensures o.Move? <==> s.arrowKey && (ch == KeyUp || ch == KeyDown)
    ensures !o.Exit? ==> o.state.selected < total && o.state.arrowKey == (s.arrowKey || ch == ArrowKey)
    ensures o.Stay? ==> o.state.selected == s.selected
  {
    if ch == ArrowKey then Stay(BrowseState(s.selected, true))
    else if ch == EndOfText then Exit
    else if !s.arrowKey then Stay(s)
    else if ch == KeyUp then Move(BrowseState(if s.selected == 0 then total - 1 else s.selected - 1, true))
    else if ch == KeyDown then Move(BrowseState(if s.selected == total - 1 then 0 else s.selected + 1, true))
    else Stay(s)
  }

  /** Up then Down, or Down then Up, returns to the same entry. */
  lemma UpDownInverse(total: nat, s: BrowseState)
    requires 0 < total && s.selected < total && s.arrowKey
    ensures KeyStep(total, KeyStep(total, s, KeyUp).state, KeyDown).state == s
    ensures KeyStep(total, KeyStep(total, s, KeyDown).state, KeyUp).state == s
  {
  }

  /** The loop's modular steps, selected += total - 1 or += 1 then %= total, written out. */
  lemma CyclicSteps(sel: nat, total: nat)
    requires sel < total
    ensures (sel + 1) % total == if sel == total - 1 then 0 else sel + 1
    ensures (sel + (total - 1)) % total == if sel == 0 then total - 1 else sel - 1
  {
    ModOfRange(sel + 1, total);
    ModOfRange(sel + (total - 1), total);
  }

  /** x % t for 0 <= x < 2t, by cases. */
  lemma ModOfRange(x: nat, t: nat)
    requires 0 < t && x < 2 * t
    ensures x % t == if x < t then x else x - t
  {
    if x < t {
      DivModUnique(x, t, 0, x);
    } else {
      DivModUnique(x, t, 1, x - t);
    }
  }

  /** Quotient and remainder are determined by x == q * t + r with 0 <= r < t. */
  lemma DivModUnique(x: int, t: int, q: int, r: int)
    requires 0 < t && 0 <= r < t && x == q * t + r
    ensures x / t == q && x % t == r
  {
    var q', r' := x / t, x % t;
    assert (q' - q) * t == r - r';
    if q' > q {
      MulAtLeast(q' - q, t);
    } else if q' < q {
      MulAtLeast(q - q', t);
    }
  }

  lemma MulAtLeast(k: int, t: int)
    requires 1 <= k && 0 < t
    ensures k * t >= t
  {
  }

  datatype RunResult = RunResult(shown: seq<nat>, last: BrowseState, exited: bool)

  /**
    The browser fed with a sequence of keys: the selections it shows
    after the first, the final state, and whether Ctrl+C ended it (rather
    than the keys running out).
   */
  function Run(total: nat, s: BrowseState, keys: seq<int>): (r: RunResult)
    requires 0 < total && s.selected < total
    ensures r.last.selected < total
    ensures forall i :: 0 <= i < |r.shown| ==> r.shown[i] < total
    decreases |keys|
  {
    if keys == [] then RunResult([], s, false)
    else
      match KeyStep(total, s, keys[0])
      case Exit => RunResult([], s, true)
      case Stay(t) => Run(total, t, keys[1..])
      case Move(t) =>
        var r := Run(total, t, keys[1..]);
        RunResult([t.selected] + r.shown, r.last, r.exited)
  }

  /** The browser ends by Ctrl+C exactly when Ctrl+C is among the keys. */
  lemma {:induction false} RunExitsOnCtrlC(total: nat, s: BrowseState, keys: seq<int>)
    requires 0 < total && s.selected < total
    ensures Run(total, s, keys).exited <==> EndOfText in keys
    decreases |keys|
  {
    if keys != [] {
      var o := KeyStep(total, s, keys[0]);
      if !o.Exit? {
        RunExitsOnCtrlC(total, o.state, keys[1..]);
        assert keys == [keys[0]] + keys[1..];
      }
    }
  }

  /** Before the first arrow prefix no key moves the selection, so nothing is shown. */
  lemma {:induction false} RunQuietBeforeArrow(total: nat, s: BrowseState, keys: seq<int>)
    requires 0 < total && s.selected < total && !s.arrowKey && ArrowKey !in keys
    ensures Run(total, s, keys).shown == [] && Run(total, s, keys).last.selected == s.selected
    decreases |keys|
  {
    if keys != [] {
      var o := KeyStep(total, s, keys[0]);
      if !o.Exit? {
        assert keys[0] != ArrowKey && ArrowKey !in keys[1..];
        RunQuietBeforeArrow(total, o.state, keys[1..]);
      }
    }
  }

  /** n presses of Down in arrow mode advance the selection by n, cyclically. */
  lemma {:induction false} DownsAdvance(total: nat, sel: nat, n: nat)
    requires 0 < total && sel < total
    ensures Run(total, BrowseState(sel, true), seq(n, _ => KeyDown)).last == BrowseState((sel + n) % total, true)
    ensures |Run(total, BrowseState(sel, true), seq(n, _ => KeyDown)).shown| == n
    decreases n
  {
    if n > 0 {
      var keys := seq(n, _ => KeyDown);
      var next := (sel + 1) % total;
      CyclicSteps(sel, total);
      assert keys[1..] == seq(n - 1, _ => KeyDown);
      DownsAdvance(total, next, n - 1);
      ModAddShift(sel, n, total);
    }
  }

  lemma ModAddShift(a: nat, n: nat, t: nat)
    requires 0 < t && a < t && 0 < n
    ensures ((a + 1) % t + (n - 1)) % t == (a + n) % t
  {
    CyclicSteps(a, t);
    if a + 1 == t {
      var y := n - 1;
      DivModUnique(y, t, y / t, y % t);
      DivModUnique(y + t, t, y / t + 1, y % t);
    }
  }

  /** One key of a run, unfolded. */
  lemma RunCons(total: nat, s: BrowseState, keys: seq<int>)
    requires 0 < total && s.selected < total && |keys| > 0
    ensures KeyStep(total, s, keys[0]).Exit? ==> Run(total, s, keys) == RunResult([], s, true)
    ensures KeyStep(total, s, keys[0]).Stay? ==>
              Run(total, s, keys) == Run(total, KeyStep(total, s, keys[0]).state, keys[1..])
    ensures KeyStep(total, s, keys[0]).Move? ==>
              && Run(total, s, keys).shown == [KeyStep(total, s, keys[0]).state.selected] + Run(total, KeyStep(total, s, keys[0]).state, keys[1..]).shown
              && Run(total, s, keys).exited == Run(total, KeyStep(total, s, keys[0]).state, keys[1..]).exited
  {
  }

  /**
    browse: shows entry 0, then reads keys until Ctrl+C, showing the new
    selection after every move. The keys stand for successive _getch
    results; shown lists every index passed to the preview.
   */
  method Browse(total: nat, keys: seq<int>) returns (shown: seq<nat>, exited: bool)
    requires 0 < total
    ensures shown == [0] + Run(total, BrowseState(0, false), keys).shown
    ensures exited == Run(total, BrowseState(0, false), keys).exited
    ensures forall i :: 0 <= i < |shown| ==> shown[i] < total
  {
    ghost var all := Run(total, BrowseState(0, false), keys);
    var selected: nat := 0;
    var arrowKey := false;
    shown := [selected];
    exited := false;
    var i := 0;
    while i < |keys|
      invariant 0 <= i <= |keys|
      invariant selected < total && !exited
      invariant forall k :: 0 <= k < |shown| ==> shown[k] < total
      invariant [0] + all.shown == shown + Run(total, BrowseState(selected, arrowKey), keys[i..]).shown
      invariant all.exited == Run(total, BrowseState(selected, arrowKey), keys[i..]).exited
    {
      var ch := keys[i];
      ghost var before := BrowseState(selected, arrowKey);
      ghost var rest := keys[i..];
      assert rest[0] == ch && rest[1..] == keys[i + 1..];
      RunCons(total, before, rest);
      ghost var step := KeyStep(total, before, ch);
      i := i + 1;
      if ch == ArrowKey {
        arrowKey := true;
        assert step == Stay(BrowseState(selected, arrowKey));
        continue;
      }
      if ch == EndOfText {
        exited := true;
        return;
      }
      if !arrowKey {
        assert step == Stay(before);
        continue;
      }
      if ch == KeyUp {
        selected := selected + (total - 1);
      } else if ch == KeyDown {
        selected := selected + 1;
      } else {
        assert step == Stay(before);
        continue;
      }
      CyclicSteps(before.selected, total);
      selected := selected % total;
      assert step == Move(BrowseState(selected, true));
      assert (shown + [selected]) + Run(total, step.state, keys[i..]).shown == shown + ([selected] + Run(total, step.state, keys[i..]).shown);
      shown := shown + [selected];
    }
  }
}
