/**
 * The one-shot reply listeners of the handshake: each looks at every frame that arrives
 * while it is registered and either keeps waiting, or removes itself and settles its
 * promise. A frame is binary, text that is not JSON, or JSON whose `LL` member decides.
 */
module Handshake {
  import opened Wrappers

  /** `LL.control`: a falsy value (absent, empty, null, 0, false), a string, or a truthy non-string. */
  datatype ControlField = NoControl | ControlText(text: string) | ControlOther

  /** `LL.Code`: a string, or anything else (a number, null, absent), which never equals `'200'`. */
  datatype CodeField = CodeText(code: string) | CodeOther

  datatype LL = LL(control: ControlField, code: CodeField, value: Option<string>)

  datatype Message =
    | Binary
    | NotJson               // JSON.parse throws, or the JSON is a bare null and reading `LL` throws
    | Json(ll: Option<LL>)  // `LL` absent or falsy is None

  /**
   * What a listener does with a frame: keep listening, settle its promise, or let an
   * exception escape (still registered).
   */
  datatype Reply = Keep | Resolve(value: Option<string>) | Reject(reason: string) | Throw

  const Success := CodeText("200")

  /**
   * ASCII case folding. Under the `i` flag without `u`, no non-ASCII character canonicalises
   * to an ASCII one, so against an all-ASCII pattern (as every pattern here is)
   * case-insensitive matching is ASCII case folding.
   */
  function Fold(c: char): (d: char)
    ensures 'A' <= c <= 'Z' ==> d as int == c as int + 32
    ensures !('A' <= c <= 'Z') ==> d == c
  {
    if 'A' <= c <= 'Z' then (c as int + 32) as char else c
  }

  /** `p` matches `s` at offset `i`, ignoring ASCII case. */
  predicate MatchesAt(s: string, p: string, i: nat)
  {
    i + |p| <= |s| && forall j :: 0 <= j < |p| ==> Fold(s[i + j]) == Fold(p[j])
  }

  /** The regular-expression search, left to right. */
  predicate Search(s: string, p: string)
    decreases |s|
  {
    MatchesAt(s, p, 0) || (|s| > 0 && Search(s[1..], p))
  }

  lemma MatchesAtShift(s: string, p: string, i: nat)
    requires |s| > 0
    ensures MatchesAt(s[1..], p, i) <==> MatchesAt(s, p, i + 1)
  {
    if MatchesAt(s, p, i + 1) {
      forall j | 0 <= j < |p| ensures Fold(s[1..][i + j]) == Fold(p[j]) {
        assert s[1..][i + j] == s[i + 1 + j];
      }
    }
  }

  /** The search finds `p` exactly when some offset matches. */
  lemma {:induction false} SearchFinds(s: string, p: string)
    ensures Search(s, p) <==> exists i: nat :: MatchesAt(s, p, i)
    decreases |s|
  {
    if |s| > 0 {
      SearchFinds(s[1..], p);
      if Search(s[1..], p) {
        var i: nat :| MatchesAt(s[1..], p, i);
        MatchesAtShift(s, p, i);
      }
      if i: nat :| MatchesAt(s, p, i) && i > 0 {
        MatchesAtShift(s, p, i - 1);
      }
    } else {
      forall i: nat | MatchesAt(s, p, i) ensures i == 0 { }
    }
  }

  /** `getAuthKey`'s listener: settles only on the successful echo of `jdev/sys/getkey`. */
  function GetKeyReply(m: Message): (r: Reply)
    ensures !r.Reject? && (r == Throw <==> m == NotJson)
    ensures r.Resolve? <==> m.Json? && m.ll.Some? && m.ll.value.code == Success
                            && m.ll.value.control == ControlText("jdev/sys/getkey")
    ensures r.Resolve? ==> r.value == m.ll.value.value
  {
    match m
    case Binary => Keep
    case NotJson => Throw
    case Json(None) => Keep
    case Json(Some(ll)) =>
      if ll.control == NoControl || ll.control == ControlText("") then Keep
      else if ll.code != Success || ll.control != ControlText("jdev/sys/getkey") then Keep
      else Resolve(ll.value)
  }

  /**
   * A listener for a command whose echo contains `pattern`: a string control is searched,
   * any other truthy control makes `.match` throw; once matched, the code decides.
   */
  function MatchReply(m: Message, pattern: string, resolved: Option<string>, reason: string): Reply
  {
    match m
    case Binary => Keep
    case NotJson => Throw
    case Json(None) => Keep
    case Json(Some(ll)) =>
      match ll.control
      case NoControl => Keep
      case ControlOther => Throw
      case ControlText(c) =>
        if c == "" || !Search(c, pattern) then Keep
        else if ll.code != Success then Reject(reason)
        else Resolve(resolved)
  }

  const AuthPattern := "authenticate/"
  const VersionPattern := "dev/sps/LoxAPPversion3"

  /** `authenticate`'s listener: resolves without a value, or rejects with 'Authentication failure'. */
  function AuthReply(m: Message): (r: Reply)
    ensures r.Resolve? ==> r.value == None
    ensures r.Reject? ==> r.reason == "Authentication failure"
  {
    MatchReply(m, AuthPattern, None, "Authentication failure")
  }

  /** `getConfigTimestamp`'s listener: resolves with the `value`, the configuration timestamp. */
  function VersionReply(m: Message): (r: Reply)
    ensures r.Reject? ==> r.reason == "Failed to get LoxoneAPPversion timestamp"
  {
    MatchReply(m, VersionPattern, if m.Json? && m.ll.Some? then m.ll.value.value else None,
               "Failed to get LoxoneAPPversion timestamp")
  }

  /**
   * A text control settles the authentication listener exactly when it contains
   * `authenticate/`, in any ASCII case, anywhere; it then resolves exactly on code `'200'`.
   */
  lemma AuthSettles(c: string, code: CodeField, v: Option<string>)
    requires c != ""
    ensures var r := AuthReply(Json(Some(LL(ControlText(c), code, v))));
      && (r != Keep <==> exists i: nat :: MatchesAt(c, AuthPattern, i))
      && (r != Keep ==> (r.Resolve? <==> code == Success))
      && r != Throw
  {
    SearchFinds(c, AuthPattern);
  }

  /** The echo of the command the client sends, `authenticate/<hash>`, settles it. */
  lemma AuthEcho(hash: string, code: CodeField, v: Option<string>)
    ensures AuthReply(Json(Some(LL(ControlText(AuthPattern + hash), code, v))))
         == if code == Success then Resolve(None) else Reject("Authentication failure")
  {
    var c := AuthPattern + hash;
    assert MatchesAt(c, AuthPattern, 0) by {
      forall j | 0 <= j < |AuthPattern| ensures c[j] == AuthPattern[j] { }
    }
  }

  /** The echo `dev/sps/LoxAPPversion3` of `jdev/sps/LoxAPPversion3`, in any letter case, settles the version listener. */
  lemma VersionEcho(c: string, code: CodeField, v: Option<string>)
    requires MatchesAt(c, VersionPattern, 1)
    ensures VersionReply(Json(Some(LL(ControlText(c), code, v))))
         == if code == Success then Resolve(v) else Reject("Failed to get LoxoneAPPversion timestamp")
  {
    SearchFinds(c, VersionPattern);
  }
}
