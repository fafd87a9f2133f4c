/** The launch logic: the command-line tokenizer and the startup decision table
    that turns the editor flags or the parsed arguments into the actions it issues. */
module NetworkCommandLine {
  import opened Wrappers
  import opened ParticipantTypes

  /** The parsed arguments: each flag, lowercased, with its value (`None` for null). */
  type ArgMap = map<string, Option<string>>

  /** `Dictionary.Add` threw because a flag occurred twice. */
  datatype ArgError = DuplicateFlag(flag: string)

  /** What the launch issues to its collaborators. `SetOrder` is the participant-order
      broadcast; `SetLanguage` carries the value handed to the language setter, where
      `None` stands for a null string. */
  datatype Action =
    | SetOrder(order: ParticipantOrder)
    | StartHost
    | StartClient
    | StartServer
    | SetLanguage(name: Option<string>)

  // ---------------------------------------------------------------------------
  // Lowercasing (ASCII only)

  function LowerChar(c: char): char
  {
    if 'A' <= c <= 'Z' then (c as int + 32) as char else c
  }

  predicate IsLower(s: string)
  {
    forall i :: 0 <= i < |s| ==> !('A' <= s[i] <= 'Z')
  }

  /** `ToLower` restricted to ASCII: upper-case letters become lower-case, nothing else changes. */
  function ToLower(s: string): (r: string)
    ensures |r| == |s|
    ensures IsLower(r)
    ensures forall i :: 0 <= i < |s| && 'A' <= s[i] <= 'Z' ==> r[i] as int == s[i] as int + 32
    ensures forall i :: 0 <= i < |s| && !('A' <= s[i] <= 'Z') ==> r[i] == s[i]
    ensures IsLower(s) ==> r == s
  {
    seq(|s|, i requires 0 <= i < |s| => LowerChar(s[i]))
  }

  predicate StartsWithDash(s: string)
  {
    |s| > 0 && s[0] == '-'
  }

  // ---------------------------------------------------------------------------
  // The tokenizer

  /** Token `i` is a flag when its lowercased form starts with a dash. */
  predicate IsFlag(args: seq<string>, i: nat)
    requires i < |args|
  {
    StartsWithDash(ToLower(args[i]))
  }

  /** The value of the flag at `i`: the next token lowercased, or null when the flag
      is the last token or the next token is itself a flag. */
  function ValueAfter(args: seq<string>, i: nat): (v: Option<string>)
    requires i < |args|
    ensures v.Some? <==> i + 1 < |args| && !IsFlag(args, i + 1)
    ensures v.Some? ==> v.value == ToLower(args[i + 1]) && IsLower(v.value)
  {
    var value := if i < |args| - 1 then Some(ToLower(args[i + 1])) else Option.None;
    if value.Some? && StartsWithDash(value.value) then Option.None else value
  }

  /** The dictionary after the first `n` tokens have been scanned, or the failure of
      the `Dictionary.Add` that met a flag twice. */
  function ParsePrefix(args: seq<string>, n: nat): Result<ArgMap, ArgError>
    requires n <= |args|
  {
    if n == 0 then Success(map[])
    else
      match ParsePrefix(args, n - 1)
      case Failure(e) => Failure(e)
      case Success(m) =>
        var arg := ToLower(args[n - 1]);
        if !StartsWithDash(arg) then Success(m)
        else if arg in m then Failure(DuplicateFlag(arg))
        else Success(m[arg := ValueAfter(args, n - 1)])
  }

  /** The dictionary built from the whole argument list: it fails exactly on a
      duplicated flag, and otherwise holds every flag, mapped to the value after it. */
  function ParseArgs(args: seq<string>): (r: Result<ArgMap, ArgError>)
    ensures r.Failure? <==> HasDuplicateFlag(args, |args|)
    ensures r.Success? ==> forall k :: k in r.value <==> FlagBefore(args, |args|, k)
    ensures r.Success? ==> forall i :: 0 <= i < |args| && IsFlag(args, i) ==>
      ToLower(args[i]) in r.value && r.value[ToLower(args[i])] == ValueAfter(args, i)
  {
    ParseFailsIffDuplicate(args, |args|);
    if ParsePrefix(args, |args|).Success? then
      ParseKeys(args, |args|);
      ParseValues(args, |args|);
      ParsePrefix(args, |args|)
    else
      ParsePrefix(args, |args|)
  }

  /** Some flag occurs twice, after lowercasing, among the first `n` tokens. */
  predicate HasDuplicateFlag(args: seq<string>, n: nat)
    requires n <= |args|
  {
    exists i, j :: 0 <= i < j < n && IsFlag(args, i) && IsFlag(args, j) && ToLower(args[i]) == ToLower(args[j])
  }

  /** Token `i`, among the first `n`, is a flag whose lowercased form is `k`. */
  predicate FlagBefore(args: seq<string>, n: nat, k: string)
    requires n <= |args|
  {
    exists i :: 0 <= i < n && IsFlag(args, i) && ToLower(args[i]) == k
  }

  /** One more token: the dictionary is unchanged by a non-flag and gains the flag
      with its value otherwise. */
  lemma ParseStep(args: seq<string>, n: nat)
    requires 0 < n <= |args| && ParsePrefix(args, n).Success?
    ensures ParsePrefix(args, n - 1).Success?
    ensures var m, m' := ParsePrefix(args, n - 1).value, ParsePrefix(args, n).value;
      if IsFlag(args, n - 1)
      then ToLower(args[n - 1]) !in m && m' == m[ToLower(args[n - 1]) := ValueAfter(args, n - 1)]
      else m' == m
  {
  }

  /** A successful parse has exactly the lowercased flags as keys. */
  lemma {:induction false} ParseKeys(args: seq<string>, n: nat)
    requires n <= |args| && ParsePrefix(args, n).Success?
    ensures forall k :: k in ParsePrefix(args, n).value <==> FlagBefore(args, n, k)
  {
    if n > 0 {
      ParseStep(args, n);
      ParseKeys(args, n - 1);
      var m := ParsePrefix(args, n - 1).value;
      var m' := ParsePrefix(args, n).value;
      forall k ensures k in m' <==> FlagBefore(args, n, k) {
        if FlagBefore(args, n, k) {
          var i :| 0 <= i < n && IsFlag(args, i) && ToLower(args[i]) == k;
          if i < n - 1 {
            assert FlagBefore(args, n - 1, k);
          }
        }
        if k in m {
          var i :| 0 <= i < n - 1 && IsFlag(args, i) && ToLower(args[i]) == k;
        }
      }
    }
  }

  /** In a successful parse each flag's value is the token that follows it,
      lowercased, unless that token is missing or is itself a flag. */
  lemma {:induction false} ParseValues(args: seq<string>, n: nat)
    requires n <= |args| && ParsePrefix(args, n).Success?
    ensures forall i :: 0 <= i < n && IsFlag(args, i) ==>
      ToLower(args[i]) in ParsePrefix(args, n).value &&
      ParsePrefix(args, n).value[ToLower(args[i])] == ValueAfter(args, i)
  {
    if n > 0 {
      ParseStep(args, n);
      ParseValues(args, n - 1);
    }
  }

  /** Parsing fails exactly when some flag occurs twice. */
  lemma {:induction false} ParseFailsIffDuplicate(args: seq<string>, n: nat)
    requires n <= |args|
    ensures ParsePrefix(args, n).Failure? <==> HasDuplicateFlag(args, n)
  {
    if n > 0 {
      ParseFailsIffDuplicate(args, n - 1);
      var arg := ToLower(args[n - 1]);
      if ParsePrefix(args, n - 1).Failure? {
        var i, j :| 0 <= i < j < n - 1 && IsFlag(args, i) && IsFlag(args, j) && ToLower(args[i]) == ToLower(args[j]);
        assert 0 <= i < j < n;
      } else {
        var m := ParsePrefix(args, n - 1).value;
        ParseKeys(args, n - 1);
        if ParsePrefix(args, n).Failure? {
          assert IsFlag(args, n - 1) && arg in m;
          var i :| 0 <= i < n - 1 && IsFlag(args, i) && ToLower(args[i]) == arg;
          assert 0 <= i < n - 1 < n;
        }
      }
    }
  }

  /** Once a `Dictionary.Add` has thrown, scanning more tokens does not change the outcome. */
  lemma {:induction false} FailureIsFinal(args: seq<string>, n: nat, n': nat)
    requires n <= n' <= |args| && ParsePrefix(args, n).Failure?
    ensures ParsePrefix(args, n') == ParsePrefix(args, n)
    decreases n' - n
  {
    if n < n' {
      FailureIsFinal(args, n, n' - 1);
    }
  }

  /** `GetCommandlineArgs`: scans the tokens once, filling the dictionary in place. */
  method GetCommandlineArgs(args: seq<string>) returns (r: Result<ArgMap, ArgError>)
    ensures r == ParseArgs(args)
  {
    var argDictionary: ArgMap := map[];
    for i := 0 to |args|
      invariant ParsePrefix(args, i) == Success(argDictionary)
    {
      var arg := ToLower(args[i]);
      if StartsWithDash(arg) {
        var value := if i < |args| - 1 then Some(ToLower(args[i + 1])) else Option.None;
        value := if value.Some? && StartsWithDash(value.value) then Option.None else value;
        if arg in argDictionary {
          FailureIsFinal(args, i + 1, |args|);
          return Failure(DuplicateFlag(arg));
        }
        argDictionary := argDictionary[arg := value];
      }
    }
    return Success(argDictionary);
  }

  // ---------------------------------------------------------------------------
  // The startup decision table

  /** The `-po` switch: letters a to f, in either case, select orders A to F; any
      other value, null included, selects `None`. */
  function OrderFromFlag(value: Option<string>): (o: ParticipantOrder)
    ensures o != ParticipantOrder.None ==> value == Some(Letter(o)) || value == Some(UpperLetter(o))
  {
    match value
    case Some("A") | Some("a") => A
    case Some("B") | Some("b") => B
    case Some("C") | Some("c") => C
    case Some("D") | Some("d") => D
    case Some("E") | Some("e") => E
    case Some("F") | Some("f") => F
    case _ => ParticipantOrder.None
  }

  /** The lower-case letter naming an order on the command line. */
  function Letter(o: ParticipantOrder): string
  {
    match o
    case None => ""
    case A => "a"
    case B => "b"
    case C => "c"
    case D => "d"
    case E => "e"
    case F => "f"
  }

  function UpperLetter(o: ParticipantOrder): string
  {
    match o
    case None => ""
    case A => "A"
    case B => "B"
    case C => "C"
    case D => "D"
    case E => "E"
    case F => "F"
  }

  /** Each of the six orders is selected by its letter, and on lower-case values
      (the only ones the tokenizer produces) that letter is the only value selecting it. */
  lemma OrderFlagRoundTrip(o: ParticipantOrder, v: string)
    requires IsLower(v)
    ensures o != ParticipantOrder.None ==> OrderFromFlag(Some(Letter(o))) == o
    ensures OrderFromFlag(Some(v)) == o && o != ParticipantOrder.None ==> v == Letter(o)
  {
  }

  /** The `-mlapi` switch: `server`, `host` and `client` each start the matching role;
      any other value starts nothing. */
  function StartFromFlag(value: Option<string>): (s: seq<Action>)
    ensures |s| <= 1
    ensures s == [StartServer] <==> value == Some("server")
    ensures s == [StartHost] <==> value == Some("host")
    ensures s == [StartClient] <==> value == Some("client")
    ensures value != Some("server") && value != Some("host") && value != Some("client") ==> s == []
  {
    match value
    case Some("server") => [StartServer]
    case Some("host") => [StartHost]
    case Some("client") => [StartClient]
    case _ => []
  }

  /** The actions of a packaged run: the order broadcast if `-po` is present, then the
      network start chosen by `-mlapi`, then the language if `-language` is present. */
  function PackagedActions(m: ArgMap): (acts: seq<Action>)
    ensures InLaunchOrder(acts)
  {
    var order := if "-po" in m then [SetOrder(OrderFromFlag(m["-po"]))] else [];
    var start := if "-mlapi" in m then StartFromFlag(m["-mlapi"]) else [];
    var language := if "-language" in m then [SetLanguage(m["-language"])] else [];
    PhasesInLaunchOrder(order, start, language);
    order + start + language
  }

  /** `-po` decides the order broadcast: there is one exactly when the flag is present,
      and it carries the order its value selects. */
  lemma PoFlagSetsOrder(m: ArgMap)
    ensures forall a :: a in PackagedActions(m) && a.SetOrder? ==> "-po" in m && a.order == OrderFromFlag(m["-po"])
    ensures "-po" in m ==> SetOrder(OrderFromFlag(m["-po"])) in PackagedActions(m)
  {
  }

  /** `-mlapi` decides the network start: a start action occurs only for a value the
      switch recognises, and it is the one that value selects. */
  lemma MlapiFlagStarts(m: ArgMap)
    ensures forall a :: a in PackagedActions(m) && IsStart(a) ==> "-mlapi" in m && StartFromFlag(m["-mlapi"]) == [a]
    ensures "-mlapi" in m && StartFromFlag(m["-mlapi"]) != [] ==> StartFromFlag(m["-mlapi"])[0] in PackagedActions(m)
  {
  }

  /** `-language` decides the language: it is set exactly when the flag is present,
      to the flag's value. */
  lemma LanguageFlagSetsLanguage(m: ArgMap)
    ensures forall a :: a in PackagedActions(m) && a.SetLanguage? ==> "-language" in m && a.name == m["-language"]
    ensures "-language" in m ==> SetLanguage(m["-language"]) in PackagedActions(m)
  {
  }

  predicate IsStart(a: Action)
  {
    a.StartHost? || a.StartClient? || a.StartServer?
  }

  /** The phase an action belongs to: order broadcast, network start, language. */
  function Rank(a: Action): nat
  {
    match a
    case SetOrder(_) => 0
    case StartHost | StartClient | StartServer => 1
    case SetLanguage(_) => 2
  }

  /** The phases come in order and each occurs at most once. */
  predicate InLaunchOrder(acts: seq<Action>)
  {
    forall i, j :: 0 <= i < j < |acts| ==> Rank(acts[i]) < Rank(acts[j])
  }

  /** At most one action per phase, each in its phase, concatenated phase by phase,
      are in launch order. */
  lemma PhasesInLaunchOrder(order: seq<Action>, start: seq<Action>, language: seq<Action>)
    requires |order| <= 1 && |start| <= 1 && |language| <= 1
    requires forall a :: a in order ==> Rank(a) == 0
    requires forall a :: a in start ==> Rank(a) == 1
    requires forall a :: a in language ==> Rank(a) == 2
    ensures InLaunchOrder(order + start + language)
  {
  }

  /** `SetupAndStart`: in the editor the arguments are ignored; otherwise they are
      parsed, and a duplicate flag aborts the launch before any action is issued. */
  function SetupAndStart(isEditor: bool, editorRunAsServer: bool, args: seq<string>): (r: Result<seq<Action>, ArgError>)
    ensures r.Success? ==> InLaunchOrder(r.value)
    ensures isEditor ==> r.Success? && |r.value| == 3
    ensures !isEditor ==> (r.Failure? <==> HasDuplicateFlag(args, |args|))
  {
    if isEditor then
      Success([SetOrder(A), if editorRunAsServer then StartHost else StartClient, SetLanguage(Some("English"))])
    else
      ParseFailsIffDuplicate(args, |args|);
      match ParseArgs(args)
      case Failure(e) => Failure(e)
      case Success(m) => Success(PackagedActions(m))
  }

  /** A packaged run without a duplicated flag issues the actions its arguments ask for:
      an order broadcast exactly for a `-po` flag, with the order its value selects; the
      start action a `-mlapi` value selects, and no other; the language exactly for a
      `-language` flag, with its value. */
  lemma PackagedRunFollowsArguments(editorRunAsServer: bool, args: seq<string>)
    requires !HasDuplicateFlag(args, |args|)
    ensures SetupAndStart(false, editorRunAsServer, args).Success?
    ensures var acts := SetupAndStart(false, editorRunAsServer, args).value;
      forall i :: 0 <= i < |args| && IsFlag(args, i) && ToLower(args[i]) == "-po" ==>
        SetOrder(OrderFromFlag(ValueAfter(args, i))) in acts
    ensures var acts := SetupAndStart(false, editorRunAsServer, args).value;
      forall a :: a in acts && a.SetOrder? ==>
        exists i :: 0 <= i < |args| && IsFlag(args, i) && ToLower(args[i]) == "-po" && a.order == OrderFromFlag(ValueAfter(args, i))
    ensures var acts := SetupAndStart(false, editorRunAsServer, args).value;
      forall i :: 0 <= i < |args| && IsFlag(args, i) && ToLower(args[i]) == "-mlapi" ==>
        forall a :: a in StartFromFlag(ValueAfter(args, i)) ==> a in acts
    ensures var acts := SetupAndStart(false, editorRunAsServer, args).value;
      forall a :: a in acts && IsStart(a) ==>
        exists i :: 0 <= i < |args| && IsFlag(args, i) && ToLower(args[i]) == "-mlapi" && StartFromFlag(ValueAfter(args, i)) == [a]
    ensures var acts := SetupAndStart(false, editorRunAsServer, args).value;
      forall i :: 0 <= i < |args| && IsFlag(args, i) && ToLower(args[i]) == "-language" ==>
        SetLanguage(ValueAfter(args, i)) in acts
    ensures var acts := SetupAndStart(false, editorRunAsServer, args).value;
      forall a :: a in acts && a.SetLanguage? ==>
        exists i :: 0 <= i < |args| && IsFlag(args, i) && ToLower(args[i]) == "-language" && a.name == ValueAfter(args, i)
  {
    var m := ParseArgs(args).value;
    assert SetupAndStart(false, editorRunAsServer, args).value == PackagedActions(m);
    PoFlagSetsOrder(m);
    MlapiFlagStarts(m);
    LanguageFlagSetsLanguage(m);
  }

  /** The tokenizer only produces lower-case values, so the upper-case cases of the
      `-po` switch can never be taken. */
  lemma ParsedValuesAreLowercase(args: seq<string>)
    requires ParseArgs(args).Success?
    ensures forall k :: k in ParseArgs(args).value && ParseArgs(args).value[k].Some? ==>
      IsLower(ParseArgs(args).value[k].value)
  {
    var m := ParseArgs(args).value;
    ParseKeys(args, |args|);
    ParseValues(args, |args|);
    forall k | k in m && m[k].Some? ensures IsLower(m[k].value) {
      var i :| 0 <= i < |args| && IsFlag(args, i) && ToLower(args[i]) == k;
    }
  }

  /** `-po B -mlapi host` broadcasts order B and starts a host. */
  lemma OrderAndHostExample()
    ensures SetupAndStart(false, false, ["-po", "B", "-mlapi", "host"]) == Success([SetOrder(B), StartHost])
  {
    var args := ["-po", "B", "-mlapi", "host"];
    assert ToLower("-po") == "-po";
    assert ToLower("B") == "b";
    assert ToLower("-mlapi") == "-mlapi";
    assert ToLower("host") == "host";
    assert ValueAfter(args, 0) == Some("b");
    assert ValueAfter(args, 2) == Some("host");
    var m := map["-po" := Some("b"), "-mlapi" := Some("host")];
    assert ParsePrefix(args, 1) == Success(map["-po" := Some("b")]);
    assert ParsePrefix(args, 2) == Success(map["-po" := Some("b")]);
    assert ParsePrefix(args, 3) == Success(m);
    assert ParsePrefix(args, 4) == Success(m);
    assert OrderFromFlag(Some("b")) == B;
    assert StartFromFlag(Some("host")) == [StartHost];
    assert "-language" !in m;
    assert PackagedActions(m) == [SetOrder(B)] + [StartHost] + [];
    assert ParseArgs(args) == Success(m);
    assert [SetOrder(B)] + [StartHost] + [] == [SetOrder(B), StartHost];
  }

  /** An unrecognised `-po` value broadcasts `None`, and without `-mlapi` nothing starts. */
  lemma UnknownOrderExample()
    ensures SetupAndStart(false, true, ["-po", "Z"]) == Success([SetOrder(ParticipantOrder.None)])
  {
    var args := ["-po", "Z"];
    assert ToLower("-po") == "-po";
    assert ToLower("Z") == "z";
    assert ValueAfter(args, 0) == Some("z");
    var m := map["-po" := Some("z")];
    assert ParsePrefix(args, 1) == Success(m);
    assert ParsePrefix(args, 2) == Success(m);
    assert OrderFromFlag(Some("z")) == ParticipantOrder.None;
    assert "-mlapi" !in m && "-language" !in m;
    assert PackagedActions(m) == [SetOrder(ParticipantOrder.None)] + [] + [];
    assert ParseArgs(args) == Success(m);
    assert [SetOrder(ParticipantOrder.None)] + [] + [] == [SetOrder(ParticipantOrder.None)];
  }

  /** `-PO` and `-po` are the same flag once lowercased, so the launch aborts. */
  lemma DuplicateFlagExample()
    ensures SetupAndStart(false, false, ["-PO", "a", "-po", "b"]) == Failure(DuplicateFlag("-po"))
  {
    var args := ["-PO", "a", "-po", "b"];
    assert ToLower("-PO") == "-po";
    assert ToLower("-po") == "-po";
    assert ToLower("a") == "a";
    assert ToLower("b") == "b";
    assert ValueAfter(args, 0) == Some("a");
    var m := map["-po" := Some("a")];
    assert ParsePrefix(args, 1) == Success(m);
    assert ParsePrefix(args, 2) == Success(m);
    assert ParsePrefix(args, 3) == Failure(DuplicateFlag("-po"));
  }

  /** In the editor the arguments are ignored: order A, then host or client as
      configured, then English. */
  lemma EditorIgnoresArguments(editorRunAsServer: bool, args: seq<string>, args': seq<string>)
    ensures SetupAndStart(true, editorRunAsServer, args) == SetupAndStart(true, editorRunAsServer, args')
    ensures SetupAndStart(true, editorRunAsServer, args).value ==
      [SetOrder(A), if editorRunAsServer then StartHost else StartClient, SetLanguage(Some("English"))]
  {
  }
}
