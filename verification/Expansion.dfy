/** In-place expansion of `&X` and `&{NAME}` in a command, following the pattern
    &\{(\S+?)}  |  &\S+?     with the shortest match. */
module Expansion {
  import opened Wrappers
  import opened Tokenizer

  /** Where the shortest `\S+?` in front of a closing brace ends, looking from `n`. */
  function CloseAt(t: string, n: nat): (j: Option<nat>)
    ensures j.Some? ==> j.value < |t| && 1 <= j.value
    decreases |t| - n
  {
    if n >= |t| then None
    else if n >= 1 && t[n] == '}' then Some(n)
    else if IsBlank(t[n]) then None
    else CloseAt(t, n + 1)
  }

  /** The match at the front of a text. `Bare` is `&{` on its own, whose name cannot be
      cut out: the expansion panics. */
  datatype Ref = NoRef | Bare | Named(name: string, length: nat)

  function RefAt(t: string): (r: Ref)
    ensures r.Named? ==> 2 <= r.length <= |t|
  {
    if |t| < 2 || t[0] != '&' || IsBlank(t[1]) then NoRef
    else if t[1] != '{' then Named(t[1..2], 2)
    else match CloseAt(t[2..], 0)
      case Some(j) => Named(t[2..2 + j], j + 3)
      case None => Bare
  }

  type Variables = map<string, string>

  /** `None` when the expansion panics. */
  function Expand(t: string, vars: Variables): Option<string>
    decreases |t|
  {
    if t == "" then Some("")
    else match RefAt(t)
      case Bare => None
      case NoRef => Prefix(t[..1], Expand(t[1..], vars))
      case Named(name, n) =>
        Prefix(if name in vars then vars[name] else t[..n], Expand(t[n..], vars))
  }

  function Prefix(a: string, b: Option<string>): Option<string> {
    if b.Some? then Some(a + b.value) else None
  }

  // -------------------------------------- when expanding twice makes no difference

  /** `&{name}` is a reference to this name. */
  predicate Referable(name: string) {
    RefAt("&{" + name + "}") == Named(name, |name| + 3)
  }

  /** The scan ends on a lone `&`, which takes up whatever comes next. */
  predicate Dangles(t: string)
    decreases |t|
  {
    t != "" &&
    match RefAt(t)
    case Bare => false
    case NoRef => t == "&" || Dangles(t[1..])
    case Named(_, n) => Dangles(t[n..])
  }

  /** Every value that can be referred to is left alone by the expansion, and leaves
      alone what follows it. */
  predicate Closed(vars: Variables) {
    forall name | name in vars ::
      Referable(name) ==> Expand(vars[name], vars) == Some(vars[name]) && !Dangles(vars[name])
  }

  ghost predicate Idempotent(vars: Variables) {
    forall t {:trigger Expand(t, vars)} :: Expand(t, vars).Some? ==>
      Expand(Expand(t, vars).value, vars) == Expand(t, vars)
  }

  /** The closing brace is found from the text up to it alone. */
  lemma {:induction false} CloseIsLocal(t: string, u: string, n: nat, j: nat)
    requires CloseAt(t, n) == Some(j) && n <= j && j < |u| && t[..j + 1] == u[..j + 1]
    ensures CloseAt(u, n) == Some(j)
    decreases |t| - n
  {
    assert t[n] == t[..j + 1][n] == u[n];
    if !(n >= 1 && t[n] == '}') {
      CloseNotBefore(t, n + 1);
      CloseIsLocal(t, u, n + 1, j);
    }
  }

  lemma {:induction false} CloseNotBefore(t: string, n: nat)
    ensures CloseAt(t, n).Some? ==> n <= CloseAt(t, n).value
    decreases |t| - n
  {
    if n < |t| && !(n >= 1 && t[n] == '}') && !IsBlank(t[n]) {
      CloseNotBefore(t, n + 1);
    }
  }

  /** A reference that is kept is found again, whatever follows it. */
  lemma RefIsLocal(t: string, rest: string)
    requires RefAt(t).Named?
    ensures RefAt(t[..RefAt(t).length] + rest) == RefAt(t)
  {
    var n := RefAt(t).length;
    var u := t[..n] + rest;
    assert u[..2] == t[..2];
    if t[1] == '{' {
      var j := CloseAt(t[2..], 0).value;
      assert u[2..][..j + 1] == t[2..][..j + 1];
      CloseIsLocal(t[2..], u[2..], 0, j);
    }
  }

  /** A name that is matched can also be referred to in braces. */
  lemma MatchedIsReferable(t: string)
    requires RefAt(t).Named?
    ensures Referable(RefAt(t).name)
  {
    var name := RefAt(t).name;
    var u := "&{" + name + "}";
    assert u[2..] == name + "}";
    if t[1] == '{' {
      var j := CloseAt(t[2..], 0).value;
      assert name + "}" == t[2..][..j + 1] by { CloseIsBrace(t[2..], 0); }
      assert (name + "}")[..j + 1] == t[2..][..j + 1];
      CloseIsLocal(t[2..], name + "}", 0, j);
      assert u[2..2 + j] == name;
    } else {
      assert name == [t[1]] && CloseAt(name + "}", 1) == Some(1) && CloseAt(name + "}", 0) == Some(1);
      assert u[2..2 + 1] == name;
    }
  }

  lemma {:induction false} CloseIsBrace(t: string, n: nat)
    ensures CloseAt(t, n).Some? ==> t[CloseAt(t, n).value] == '}'
    decreases |t| - n
  {
    if n < |t| && !(n >= 1 && t[n] == '}') && !IsBlank(t[n]) {
      CloseIsBrace(t, n + 1);
    }
  }

  /** How far the first step of the scan goes. */
  function StepOf(t: string): (n: nat)
    requires t != ""
    ensures 1 <= n <= |t|
  {
    if RefAt(t).Named? then RefAt(t).length else 1
  }

  /** The first step does not look beyond the text, unless it is at a lone `&`. */
  lemma StepIsLocal(v: string, rest: string)
    requires v != "" && v != "&" && !RefAt(v).Bare?
    ensures RefAt(v + rest) == RefAt(v)
    ensures (v + rest)[..StepOf(v)] == v[..StepOf(v)] && (v + rest)[StepOf(v)..] == v[StepOf(v)..] + rest
  {
    var n := StepOf(v);
    assert v + rest == v[..n] + (v[n..] + rest);
    if RefAt(v).Named? {
      RefIsLocal(v, v[n..] + rest);
    } else {
      assert (v + rest)[0] == v[0] && (|v| >= 2 ==> (v + rest)[1] == v[1]);
    }
  }

  /** What replaces the first step. */
  function HeadOf(t: string, vars: Variables): string
    requires t != ""
  {
    if RefAt(t).Named? && RefAt(t).name in vars then vars[RefAt(t).name] else t[..StepOf(t)]
  }

  lemma ExpandStep(t: string, vars: Variables)
    requires t != "" && !RefAt(t).Bare?
    ensures Expand(t, vars) == Prefix(HeadOf(t, vars), Expand(t[StepOf(t)..], vars))
    ensures t != "&" ==> (Dangles(t) <==> Dangles(t[StepOf(t)..]))
  {
  }

  lemma PrefixTwice(a: string, b: string, c: Option<string>)
    ensures Prefix(a, Prefix(b, c)) == Prefix(a + b, c)
  {
    if c.Some? { assert a + (b + c.value) == (a + b) + c.value; }
  }

  /** A text that does not dangle is expanded by itself, whatever follows it. */
  lemma {:induction false} ExpandConcat(v: string, rest: string, vars: Variables)
    requires Expand(v, vars).Some? && !Dangles(v)
    ensures Expand(v + rest, vars) == Prefix(Expand(v, vars).value, Expand(rest, vars))
    decreases |v|
  {
    if v == "" {
      assert v + rest == rest;
      if Expand(rest, vars).Some? { assert "" + Expand(rest, vars).value == Expand(rest, vars).value; }
    } else {
      ScanGoesOn(v, vars);
      hide Expand, Dangles, RefAt, StepOf;
      var tail := v[StepOf(v)..];
      ExpandStep(v, vars);
      StepIsLocal(v, rest);
      ExpandStep(v + rest, vars);
      ExpandConcat(tail, rest, vars);
      assert HeadOf(v + rest, vars) == HeadOf(v, vars) by { SameHead(v, rest, vars); }
      PrefixTwice(HeadOf(v, vars), Expand(tail, vars).value, Expand(rest, vars));
    }
  }

  lemma ScanGoesOn(v: string, vars: Variables)
    requires v != "" && Expand(v, vars).Some?
    ensures !RefAt(v).Bare? && (!Dangles(v) ==> v != "&")
  {
  }

  lemma SameHead(v: string, rest: string, vars: Variables)
    requires v != "" && RefAt(v + rest) == RefAt(v)
    ensures StepOf(v + rest) == StepOf(v) && HeadOf(v + rest, vars) == HeadOf(v, vars)
  {
  }

  /** A lone `&` at the end and a brace after it make a bare reference. */
  lemma {:induction false} DanglingTakesBrace(v: string, vars: Variables)
    requires Expand(v, vars).Some? && Dangles(v)
    ensures Expand(v + "{", vars) == None
    decreases |v|
  {
    if v == "&" {
      var t := v + "{";
      assert CloseAt(t[2..], 0) == None;
      assert RefAt(t) == Bare;
    } else {
      ScanGoesOn(v, vars);
      hide Expand, RefAt;
      ExpandStep(v, vars);
      StepIsLocal(v, "{");
      SameHead(v, "{", vars);
      ExpandStep(v + "{", vars);
      DanglingTakesBrace(v[StepOf(v)..], vars);
    }
  }

  lemma {:induction false} ExpandIsIdempotent(t: string, vars: Variables)
    requires Closed(vars) && Expand(t, vars).Some?
    ensures Expand(Expand(t, vars).value, vars) == Expand(t, vars)
    decreases |t|
  {
    if t != "" {
      match RefAt(t) {
        case Named(name, n) =>
          ExpandIsIdempotent(t[n..], vars);
          var rest := Expand(t[n..], vars).value;
          if name in vars {
            MatchedIsReferable(t);
            ExpandConcat(vars[name], rest, vars);
          } else {
            RefIsLocal(t, rest);
            var u := t[..n] + rest;
            assert u[..n] == t[..n] && u[n..] == rest;
          }
        case NoRef =>
          ExpandIsIdempotent(t[1..], vars);
          var rest := Expand(t[1..], vars).value;
          var u := t[..1] + rest;
          assert u[1..] == rest && u[..1] == t[..1];
          BlankFirst(t[1..], vars);
      }
    }
  }

  /** A leading blank stays where it is. */
  lemma BlankFirst(t: string, vars: Variables)
    requires Expand(t, vars).Some?
    ensures t == "" ==> Expand(t, vars).value == ""
    ensures t != "" && IsBlank(t[0]) ==> Expand(t, vars).value != "" && Expand(t, vars).value[0] == t[0]
  {
    if t != "" && IsBlank(t[0]) {
      assert t[..1][0] == t[0];
    }
  }

  /** Expanding an expanded text never changes anything exactly if every value that can be
      referred to is left alone by the expansion and does not end on a lone `&`. */
  lemma IdempotentExactlyIfClosed(vars: Variables)
    ensures Idempotent(vars) <==> Closed(vars)
  {
    hide Expand, Dangles, Referable;
    if Closed(vars) {
      forall t | Expand(t, vars).Some? ensures Expand(Expand(t, vars).value, vars) == Expand(t, vars) {
        ExpandIsIdempotent(t, vars);
      }
    }
    forall name | name in vars && Idempotent(vars) && Referable(name)
      ensures Expand(vars[name], vars) == Some(vars[name]) && !Dangles(vars[name])
    {
      ExpandReference(name, vars);
      assert Expand(vars[name], vars) == Some(vars[name]);
      if Dangles(vars[name]) {
        DanglingTakesBrace(vars[name], vars);
      }
    }
  }

  /** A reference in braces, alone and in front of another brace. */
  lemma ExpandReference(name: string, vars: Variables)
    requires name in vars && Referable(name)
    ensures Expand("&{" + name + "}", vars) == Some(vars[name])
    ensures Expand("&{" + name + "}{", vars) == Some(vars[name] + "{")
  {
    var t := "&{" + name + "}";
    var u := t + "{";
    var n := |t|;
    assert t[n..] == "" && vars[name] + "" == vars[name];
    assert t[..RefAt(t).length] == t;
    RefIsLocal(t, "{");
    assert u[n..] == "{" && u == "&{" + name + "}{";
    assert RefAt("{") == NoRef && "{"[1..] == "" && "{"[..1] + "" == "{";
    assert Expand("{", vars) == Some("{");
  }

  /** In particular, values without `&` do no harm; neither does one in front of a blank. */
  lemma {:induction false} PlainTextIsKept(v: string, vars: Variables)
    requires forall k :: 0 <= k < |v| && v[k] == '&' ==> k + 1 < |v| && IsBlank(v[k + 1])
    ensures Expand(v, vars) == Some(v) && !Dangles(v)
  {
    if v != "" {
      forall k | 0 <= k < |v[1..]| && v[1..][k] == '&' ensures k + 1 < |v[1..]| && IsBlank(v[1..][k + 1]) {
        assert v[k + 1] == '&';
      }
      PlainTextIsKept(v[1..], vars);
      assert v[0] == '&' ==> IsBlank(v[1]);
      assert v[..1] + v[1..] == v && v != "&";
      assert RefAt(v) == NoRef;
    }
  }

  // ------------------------------------------------- what a text expands to

  /** A text is made of plain pieces, in which every `&` is followed by a blank, and of
      references, `&x` or `&{name}`. */
  datatype Piece = PlainText(text: string) | Short(c: char) | Braced(name: string)

  predicate PieceOk(piece: Piece) {
    match piece
    case PlainText(t) => forall k :: 0 <= k < |t| && t[k] == '&' ==> k + 1 < |t| && IsBlank(t[k + 1])
    case Short(c) => !IsBlank(c) && c != '{'
    case Braced(name) =>
      name != "" && forall k :: 0 <= k < |name| ==> !IsBlank(name[k]) && (k > 0 ==> name[k] != '}')
  }

  function Show(piece: Piece): string {
    match piece
    case PlainText(t) => t
    case Short(c) => ['&', c]
    case Braced(name) => "&{" + name + "}"
  }

  /** References to variables that are set are replaced; all else stays as it is written. */
  function Meaning(piece: Piece, vars: Variables): string {
    match piece
    case PlainText(t) => t
    case Short(c) => if [c] in vars then vars[[c]] else ['&', c]
    case Braced(name) => if name in vars then vars[name] else "&{" + name + "}"
  }

  function ShowAll(pieces: seq<Piece>): string {
    if pieces == [] then "" else Show(pieces[0]) + ShowAll(pieces[1..])
  }

  function MeaningAll(pieces: seq<Piece>, vars: Variables): string {
    if pieces == [] then "" else Meaning(pieces[0], vars) + MeaningAll(pieces[1..], vars)
  }

  /** No name is closed in front of the next blank: the reference stays bare. */
  predicate NeverCloses(t: string) {
    forall j :: 1 <= j < |t| && t[j] == '}' ==> exists i :: 0 <= i < j && IsBlank(t[i])
  }

  lemma {:induction false} CloseAtFirst(t: string, n: nat, j: nat)
    requires n <= j < |t| && 1 <= j && t[j] == '}'
    requires forall k :: n <= k < j ==> !IsBlank(t[k]) && (k > 0 ==> t[k] != '}')
    ensures CloseAt(t, n) == Some(j)
    decreases j - n
  {
    if n < j {
      CloseAtFirst(t, n + 1, j);
    }
  }

  lemma {:induction false} CloseIsFirst(t: string, n: nat)
    ensures match CloseAt(t, n)
      case Some(j) =>
        n <= j < |t| && t[j] == '}' && forall k :: n <= k < j ==> !IsBlank(t[k]) && (k > 0 ==> t[k] != '}')
      case None => forall j :: n <= j < |t| && 1 <= j && t[j] == '}' ==> exists i :: n <= i < j && IsBlank(t[i])
    decreases |t| - n
  {
    if n < |t| && !(n >= 1 && t[n] == '}') && !IsBlank(t[n]) {
      CloseIsFirst(t, n + 1);
    }
  }

  lemma ExpandPiece(piece: Piece, vars: Variables)
    requires PieceOk(piece)
    ensures Expand(Show(piece), vars) == Some(Meaning(piece, vars)) && !Dangles(Show(piece))
  {
    var t := Show(piece);
    match piece {
      case PlainText(text) => PlainTextIsKept(text, vars);
      case Short(c) =>
        assert RefAt(t) == Named([c], 2) && t[2..] == "" && t[..2] == t;
        assert Meaning(piece, vars) + "" == Meaning(piece, vars);
      case Braced(name) =>
        assert t[2..] == name + "}";
        CloseAtFirst(t[2..], 0, |name|);
        assert t[2..2 + |name|] == name && RefAt(t) == Named(name, |t|);
        assert t[|t|..] == "" && t[..|t|] == t && Meaning(piece, vars) + "" == Meaning(piece, vars);
    }
  }

  /** A text of pieces expands piece by piece, whatever follows. */
  lemma {:induction false} ExpandPieces(pieces: seq<Piece>, rest: string, vars: Variables)
    requires forall piece :: piece in pieces ==> PieceOk(piece)
    ensures Expand(ShowAll(pieces) + rest, vars) == Prefix(MeaningAll(pieces, vars), Expand(rest, vars))
    decreases |pieces|
  {
    hide Expand, Dangles, PieceOk, Show, Meaning;
    if pieces == [] {
      assert ShowAll(pieces) + rest == rest;
      if Expand(rest, vars).Some? { assert "" + Expand(rest, vars).value == Expand(rest, vars).value; }
    } else {
      var first, tail := pieces[0], pieces[1..];
      assert first in pieces && forall piece :: piece in tail ==> piece in pieces;
      assert ShowAll(pieces) + rest == Show(first) + (ShowAll(tail) + rest);
      ExpandPiece(first, vars);
      ExpandConcat(Show(first), ShowAll(tail) + rest, vars);
      ExpandPieces(tail, rest, vars);
      PrefixTwice(Meaning(first, vars), MeaningAll(tail, vars), Expand(rest, vars));
    }
  }

  predicate IsEnd(rest: string) {
    rest == "" || rest == "&" || (|rest| >= 2 && rest[..2] == "&{" && NeverCloses(rest[2..]))
  }

  /** A text begins with a piece, or is at its end. */
  lemma FirstPiece(t: string) returns (first: Option<Piece>)
    ensures first.None? ==> IsEnd(t)
    ensures first.Some? ==> PieceOk(first.value) && Show(first.value) != "" && Show(first.value) <= t
  {
    if t == "" || t == "&" {
      first := None;
    } else if t[0] != '&' {
      first := Some(PlainText(t[..1]));
    } else if IsBlank(t[1]) {
      first := Some(PlainText(t[..2]));
    } else if t[1] != '{' {
      first := Some(Short(t[1]));
    } else {
      CloseIsFirst(t[2..], 0);
      if j :| CloseAt(t[2..], 0) == Some(j) {
        var name := t[2..][..j];
        assert "&{" + name + "}" == t[..j + 3];
        first := Some(Braced(name));
      } else {
        assert t[..2] == "&{";
        first := None;
      }
    }
  }

  /** Every text is made of pieces, with nothing, a lone `&`, or a bare reference behind them. */
  lemma {:induction false} Pieces(t: string) returns (pieces: seq<Piece>, rest: string)
    ensures t == ShowAll(pieces) + rest && IsEnd(rest)
    ensures forall piece :: piece in pieces ==> PieceOk(piece)
    decreases |t|
  {
    hide Show, PieceOk, IsEnd;
    var first := FirstPiece(t);
    if first.None? {
      pieces, rest := [], t;
      assert ShowAll(pieces) + rest == t;
    } else {
      var n := |Show(first.value)|;
      var more: seq<Piece>;
      more, rest := Pieces(t[n..]);
      pieces := [first.value] + more;
      assert pieces[1..] == more;
      assert t == Show(first.value) + t[n..];
    }
  }

  /** What any text expands to: its pieces one by one, a lone `&` at its end as it is; and a
      bare reference makes the expansion panic. */
  lemma ExpandIsByPieces(pieces: seq<Piece>, rest: string, vars: Variables)
    requires forall piece :: piece in pieces ==> PieceOk(piece)
    requires IsEnd(rest)
    ensures Expand(ShowAll(pieces) + rest, vars) ==
            if |rest| >= 2 then None else Some(MeaningAll(pieces, vars) + rest)
  {
    ExpandPieces(pieces, rest, vars);
    if |rest| >= 2 {
      CloseIsFirst(rest[2..], 0);
      assert rest[0] == rest[..2][0] && rest[1] == rest[..2][1];
    } else if rest == "&" {
      assert rest[1..] == "" && rest[..1] + "" == "&";
    }
  }

  /** A value that refers to another variable is not closed. */
  lemma ExpansionOfValuesIsSeen()
    ensures var vars := map["A" := "&B", "B" := "x"];
      && Expand("&A", vars) == Some("&B")
      && Expand("&B", vars) == Some("x")
  {
    var vars := map["A" := "&B", "B" := "x"];
    assert RefAt("&A") == Named("A", 2) && RefAt("&B") == Named("B", 2);
    assert "&A"[2..] == "" == "&B"[2..];
    assert "&B" + "" == "&B" && "x" + "" == "x";
  }

  // ------------------------------------------------------------- commands

  function ExpandAll(cmd: seq<string>, vars: Variables): Option<seq<string>> {
    if cmd == [] then Some([])
    else
      var word := Expand(cmd[0], vars);
      var rest := ExpandAll(cmd[1..], vars);
      if word.Some? && rest.Some? then Some([word.value] + rest.value) else None
  }

  lemma {:induction false} ExpandAllAt(cmd: seq<string>, vars: Variables)
    ensures ExpandAll(cmd, vars).Some? <==> forall k :: 0 <= k < |cmd| ==> Expand(cmd[k], vars).Some?
    ensures ExpandAll(cmd, vars).Some? ==>
              && |ExpandAll(cmd, vars).value| == |cmd|
              && forall k :: 0 <= k < |cmd| ==> Expand(cmd[k], vars) == Some(ExpandAll(cmd, vars).value[k])
  {
    if cmd != [] {
      ExpandAllAt(cmd[1..], vars);
      forall k | 0 < k < |cmd| ensures cmd[k] == cmd[1..][k - 1] {}
      if forall k :: 0 <= k < |cmd| ==> Expand(cmd[k], vars).Some? {
        forall k | 0 <= k < |cmd[1..]| ensures Expand(cmd[1..][k], vars).Some? {
          assert cmd[1..][k] == cmd[k + 1];
        }
      }
    }
  }

  /** The stored command after one expansion: all its words are rewritten, or only those
      in front of the first one that panics. */
  function Rewritten(cmd: seq<string>, vars: Variables): (r: seq<string>)
    ensures |r| == |cmd|
  {
    if cmd == [] || Expand(cmd[0], vars).None? then cmd
    else [Expand(cmd[0], vars).value] + Rewritten(cmd[1..], vars)
  }

  lemma {:induction false} RewrittenIs(cmd: seq<string>, vars: Variables, after: seq<string>, k: nat)
    requires |after| == |cmd| && k <= |cmd|
    requires forall j :: 0 <= j < k ==> Expand(cmd[j], vars) == Some(after[j])
    requires forall j :: k <= j < |cmd| ==> after[j] == cmd[j]
    requires k < |cmd| ==> Expand(cmd[k], vars).None?
    ensures Rewritten(cmd, vars) == after
    ensures ExpandAll(cmd, vars) == if k == |cmd| then Some(after) else None
  {
    if k == 0 {
      assert after == cmd;
    } else {
      forall j | 0 <= j < k - 1 ensures Expand(cmd[1..][j], vars) == Some(after[1..][j]) {
        assert cmd[1..][j] == cmd[j + 1] && after[1..][j] == after[j + 1];
      }
      RewrittenIs(cmd[1..], vars, after[1..], k - 1);
      assert after == [after[0]] + after[1..];
    }
  }

  /** The stored command is rewritten in place, word by word; false when a word panics. */
  method ExpandCommand(cmd: array<string>, vars: Variables) returns (ok: bool)
    modifies cmd
    ensures ok <==> ExpandAll(old(cmd[..]), vars).Some?
    ensures ok ==> cmd[..] == ExpandAll(old(cmd[..]), vars).value
    ensures cmd[..] == Rewritten(old(cmd[..]), vars)
  {
    for i := 0 to cmd.Length
      invariant forall k :: i <= k < cmd.Length ==> cmd[k] == old(cmd[..])[k]
      invariant forall k :: 0 <= k < i ==> Expand(old(cmd[..])[k], vars) == Some(cmd[k])
    {
      var word := Expand(cmd[i], vars);
      if word.None? {
        RewrittenIs(old(cmd[..]), vars, cmd[..], i);
        return false;
      }
      cmd[i] := word.value;
    }
    RewrittenIs(old(cmd[..]), vars, cmd[..], cmd.Length);
    ok := true;
  }

  // ---------------------------------------------------------- scheduled runs

  /** The stored command after a number of runs, and what the next run executes. */
  function StoredAfter(cmd: seq<string>, vars: Variables, runs: nat): seq<string> {
    if runs == 0 then cmd else Rewritten(StoredAfter(cmd, vars, runs - 1), vars)
  }

  function Executed(cmd: seq<string>, vars: Variables, runs: nat): Option<seq<string>> {
    ExpandAll(StoredAfter(cmd, vars, runs), vars)
  }

  /** A command that panics once panics for ever, for all that has been rewritten. */
  lemma {:induction false} PanicsAgain(cmd: seq<string>, vars: Variables)
    requires ExpandAll(cmd, vars).None?
    ensures ExpandAll(Rewritten(cmd, vars), vars).None?
  {
    if Expand(cmd[0], vars).Some? {
      PanicsAgain(cmd[1..], vars);
      assert Rewritten(cmd, vars)[1..] == Rewritten(cmd[1..], vars);
    }
  }

  /** Expanding a command that has been expanded. */
  lemma CommandIsIdempotent(cmd: seq<string>, vars: Variables)
    requires Closed(vars)
    ensures ExpandAll(Rewritten(cmd, vars), vars) == ExpandAll(cmd, vars)
  {
    hide Closed, Expand;
    ExpandAllAt(cmd, vars);
    if ExpandAll(cmd, vars).None? {
      PanicsAgain(cmd, vars);
    } else {
      var once := ExpandAll(cmd, vars).value;
      RewrittenIs(cmd, vars, once, |cmd|);
      forall k | 0 <= k < |once| ensures Expand(once[k], vars) == Some(once[k]) {
        ExpandIsIdempotent(cmd[k], vars);
      }
      RewrittenIs(once, vars, once, |once|);
    }
  }

  lemma {:induction false} SameForClosed(cmd: seq<string>, vars: Variables, runs: nat)
    requires Closed(vars)
    ensures Executed(cmd, vars, runs) == ExpandAll(cmd, vars)
  {
    hide Closed, ExpandAll, Rewritten;
    if runs > 0 {
      SameForClosed(cmd, vars, runs - 1);
      CommandIsIdempotent(StoredAfter(cmd, vars, runs - 1), vars);
    }
  }

  /** Although the stored command is rewritten, every run of every command executes what
      its first run did, or panics as the first one did, exactly if the environment is
      closed. */
  lemma EveryRunExecutesTheSame(vars: Variables)
    ensures (forall cmd, runs :: Executed(cmd, vars, runs) == ExpandAll(cmd, vars)) <==> Closed(vars)
  {
    hide Closed, Expand;
    if Closed(vars) {
      forall cmd, runs ensures Executed(cmd, vars, runs) == ExpandAll(cmd, vars) { SameForClosed(cmd, vars, runs); }
    }
    if forall cmd, runs :: Executed(cmd, vars, runs) == ExpandAll(cmd, vars) {
      forall t | Expand(t, vars).Some? ensures Expand(Expand(t, vars).value, vars) == Expand(t, vars) {
        assert Executed([t], vars, 1) == ExpandAll([t], vars);
        OneWord(t, vars);
        OneWord(Expand(t, vars).value, vars);
      }
      IdempotentExactlyIfClosed(vars);
    }
  }

  lemma OneWord(t: string, vars: Variables)
    ensures ExpandAll([t], vars) == if Expand(t, vars).Some? then Some([Expand(t, vars).value]) else None
    ensures Expand(t, vars).Some? ==> StoredAfter([t], vars, 1) == [Expand(t, vars).value]
  {
    hide Expand;
    var cmd := [t];
    assert cmd[1..] == [] && ExpandAll([], vars) == Some([]);
    if Expand(t, vars).Some? { assert [Expand(t, vars).value] + [] == [Expand(t, vars).value]; }
    assert StoredAfter([t], vars, 1) == Rewritten(StoredAfter([t], vars, 0), vars);
  }
}
