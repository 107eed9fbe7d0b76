/**
 Terminal-family detection from the process environment. The environment is
 an injected map from variable name to value; a variable is "set" when its
 name is a key. `windows` selects which of the two build variants runs.
 */
module Detect {
  import opened Types

  const INSIDE_EMACS := "INSIDE_EMACS"
  const TMUX := "TMUX"
  const TERM := "TERM"
  const TERM_PROGRAM := "TERM_PROGRAM"
  const WT_SESSION := "WT_SESSION"

  /** The only variables detection ever looks at. */
  const Consulted: set<string> := {INSIDE_EMACS, TMUX, TERM, TERM_PROGRAM, WT_SESSION}

  predicate StartsWith(s: string, prefix: string) {
    |prefix| <= |s| && s[..|prefix|] == prefix
  }

  /** `terminal()` on every platform other than Windows. */
  function UnixTerminal(env: map<string, string>): (t: Terminal)
    ensures t != Windows
    ensures t == Emacs <==> INSIDE_EMACS in env
    ensures t == Screen ==> TERM in env && StartsWith(env[TERM], "screen")
  {
    if INSIDE_EMACS in env then Emacs
    else if TMUX in env then Tmux
    else if TERM in env && StartsWith(env[TERM], "screen") then Screen
    else XtermCompatible
  }

  /** `terminal()` on Windows: a VS Code terminal is checked before Emacs,
      Windows Terminal is xterm-compatible, anything else is the console. */
  function WindowsTerminal(env: map<string, string>): (t: Terminal)
    ensures t in {XtermCompatible, Emacs, Windows}
    ensures t == Emacs ==> INSIDE_EMACS in env
    ensures t == Windows ==> WT_SESSION !in env && INSIDE_EMACS !in env
  {
    if TERM_PROGRAM in env && env[TERM_PROGRAM] == "vscode" then XtermCompatible
    else if INSIDE_EMACS in env then Emacs
    else if WT_SESSION in env then XtermCompatible
    else Windows
  }

  function DetectTerminal(env: map<string, string>, windows: bool): (t: Terminal)
    ensures windows ==> t !in {Tmux, Screen}
    ensures !windows ==> t != Windows
  {
    if windows then WindowsTerminal(env) else UnixTerminal(env)
  }

  /** Detection depends on nothing but the five variables it consults. */
  lemma DetectionReadsOnlyConsulted(env: map<string, string>, env': map<string, string>, windows: bool)
    requires forall k :: k in Consulted ==> (k in env <==> k in env')
    requires forall k :: k in Consulted && k in env ==> env[k] == env'[k]
    ensures DetectTerminal(env, windows) == DetectTerminal(env', windows)
  {
    assert INSIDE_EMACS in Consulted && TMUX in Consulted && TERM in Consulted;
    assert TERM_PROGRAM in Consulted && WT_SESSION in Consulted;
  }

  /** Outside Windows the first match wins: Emacs, then tmux, then a `TERM`
      starting with "screen", else xterm-compatible. */
  lemma UnixPrecedence(env: map<string, string>)
    ensures INSIDE_EMACS in env ==> DetectTerminal(env, false) == Emacs
    ensures INSIDE_EMACS !in env && TMUX in env ==> DetectTerminal(env, false) == Tmux
    ensures INSIDE_EMACS !in env && TMUX !in env ==>
      (DetectTerminal(env, false) == Screen <==> TERM in env && StartsWith(env[TERM], "screen"))
    ensures DetectTerminal(env, false) == XtermCompatible <==>
      INSIDE_EMACS !in env && TMUX !in env && !(TERM in env && StartsWith(env[TERM], "screen"))
  {
  }

  /** On Windows, `TERM_PROGRAM=vscode` wins even over `INSIDE_EMACS`; then
      Emacs; then `WT_SESSION`; else the native console. */
  lemma WindowsPrecedence(env: map<string, string>)
    ensures TERM_PROGRAM in env && env[TERM_PROGRAM] == "vscode" ==>
      DetectTerminal(env, true) == XtermCompatible
    ensures DetectTerminal(env, true) == Emacs <==>
      INSIDE_EMACS in env && !(TERM_PROGRAM in env && env[TERM_PROGRAM] == "vscode")
    ensures DetectTerminal(env, true) == Windows <==>
      INSIDE_EMACS !in env && WT_SESSION !in env && !(TERM_PROGRAM in env && env[TERM_PROGRAM] == "vscode")
  {
  }
}
