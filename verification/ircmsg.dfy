/**
 * The IRC wire codec of src/ircmsg.c: the outbound builders (JOIN, NICK,
 * PASS, PONG, PRIVMSG, USER), which format one line into a 513-byte buffer,
 * and `ircmsg_parse`, which splits an inbound line with `strtok_r` into a
 * prefix, a command and its arguments and then interprets PING and PRIVMSG.
 *
 * C strings are modelled as `CString`, a `string` without NUL. The parse has
 * three outcomes: a message, NULL, and undefined behaviour (a NULL pointer
 * handed to `strlen`, or a store past the end of the argument array).
 */
module IrcMsg {
  import opened Wrappers

  /** Most parameters a command line carries (include/ircmsg.h). */
  const CMD_PARAMS_MAX: nat := 15
  /** Most bytes of a line, CR LF included. */
  const SIZE_MAX: nat := 512
  /** Most bytes of a line without its CR LF. */
  const BODY_MAX: nat := 510
  /** Size of the buffer the builders format into: a line and its NUL. */
  const SIZE_BUF: nat := 513
  /** `sizeof(argv)` on an LP64 target: 15 pointers of 8 bytes, the bound of the argument loop. */
  const ARGV_BYTES: nat := CMD_PARAMS_MAX * 8

  const SPACE: set<char> := {' '}
  const CRLF: string := "\r\n"

  /**
   * A NUL-terminated C string, by its characters before the NUL. Each
   * `char` stands for one byte of the C string, so lengths in characters
   * are lengths in bytes.
   */
  type CString = s: string | '\0' !in s

  // ---------------------------------------------------------------------
  // The builders

  /**
   * What `snprintf(msg, IRCMSG_SIZE_BUF, ...)` leaves in the buffer: the
   * formatted line cut to the 512 bytes before the terminating NUL. The
   * builders log a truncation and return the cut line all the same.
   */
  function Truncate(line: string): (r: string)
    ensures |r| <= SIZE_MAX && r <= line
    ensures |line| <= SIZE_MAX <==> r == line
    ensures |line| > SIZE_MAX ==> |r| == SIZE_MAX
  {
    if |line| <= SIZE_BUF - 1 then line else line[..SIZE_BUF - 1]
  }

  /** `ircmsg_join`: JOIN with the channel list, and the key list when one is given. */
  function Join(channels: CString, keys: Option<CString>): (r: string)
    ensures |r| <= SIZE_MAX
  {
    match keys
    case None => Truncate("JOIN " + channels + CRLF)
    case Some(k) => Truncate("JOIN " + channels + " " + k + CRLF)
  }

  /** `ircmsg_nick`. */
  function Nick(nick: CString): (r: string)
    ensures |r| <= SIZE_MAX
  {
    Truncate("NICK " + nick + CRLF)
  }

  /** `ircmsg_pass`: the password goes out as a trailing parameter. */
  function Pass(pass: CString): (r: string)
    ensures |r| <= SIZE_MAX
  {
    Truncate("PASS :" + pass + CRLF)
  }

  /** `ircmsg_pong`: the second server, when given, goes out as a trailing parameter. */
  function Pong(server: CString, server2: Option<CString>): (r: string)
    ensures |r| <= SIZE_MAX
  {
    match server2
    case None => Truncate("PONG " + server + CRLF)
    case Some(s2) => Truncate("PONG " + server + " :" + s2 + CRLF)
  }

  /** `ircmsg_privmsg`: the text goes out as a trailing parameter. */
  function Privmsg(target: CString, text: CString): (r: string)
    ensures |r| <= SIZE_MAX
  {
    Truncate("PRIVMSG " + target + " :" + text + CRLF)
  }

  /** `ircmsg_user`: user name, mode, the unused `*`, and the real name as a trailing parameter. */
  function User(user: CString, mode: CString, realName: CString): (r: string)
    ensures |r| <= SIZE_MAX
  {
    Truncate("USER " + user + " " + mode + " * :" + realName + CRLF)
  }

  /** The line without its CR LF terminator, when it has one. */
  function Body(line: string): string {
    if |line| >= 2 && line[|line| - 2..] == CRLF then line[..|line| - 2] else line
  }

  // ---------------------------------------------------------------------
  // strtok_r

  /** The string after its leading delimiters. */
  function SkipLeading(s: string, d: set<char>): (r: string)
    ensures |r| <= |s|
    ensures |r| > 0 ==> r[0] !in d
  {
    if |s| > 0 && s[0] in d then SkipLeading(s[1..], d) else s
  }

  /** The index of the first delimiter in the string, or its length when there is none. */
  function Span(s: string, d: set<char>): (n: nat)
    ensures n <= |s|
  {
    if |s| == 0 || s[0] in d then 0 else 1 + Span(s[1..], d)
  }

  /**
   * One `strtok_r` call on the text still to scan, as glibc does it: skip
   * the leading delimiters; if nothing is left the token is NULL; otherwise
   * the token runs up to the next delimiter, which is overwritten with NUL,
   * and the scan resumes just after it. With no delimiters at all the token
   * is the whole rest of the text.
   */
  function Tok(s: string, d: set<char>): (r: (Option<string>, string))
    ensures r.0.Some? ==> |r.0.value| > 0
  {
    var t := SkipLeading(s, d);
    if |t| == 0 then (None, [])
    else
      var n := Span(t, d);
      if n == |t| then (Some(t), []) else (Some(t[..n]), t[n + 1..])
  }

  /** What is skipped is delimiters, up to the first character that is not one. */
  lemma {:induction false} SkipLeadingSpec(s: string, d: set<char>)
    ensures var r := SkipLeading(s, d);
      && r == s[|s| - |r|..]
      && (forall i | 0 <= i < |s| - |r| :: s[i] in d)
    decreases |s|
  {
    if |s| > 0 && s[0] in d {
      SkipLeadingSpec(s[1..], d);
    }
  }

  /** The span is the longest run free of delimiters. */
  lemma {:induction false} SpanSpec(s: string, d: set<char>)
    ensures var n := Span(s, d);
      && (forall i | 0 <= i < n :: s[i] !in d)
      && (n < |s| ==> s[n] in d)
    decreases |s|
  {
    if |s| > 0 && s[0] !in d {
      SpanSpec(s[1..], d);
    }
  }

  /**
   * `strtok_r` against its description: the token is NULL exactly when
   * the text is all delimiters; otherwise the text is some delimiters, the
   * token (free of delimiters), then either its end or one delimiter and
   * the rest of the scan.
   */
  lemma TokSpec(s: string, d: set<char>)
    ensures Tok(s, d).0.None? <==> forall i | 0 <= i < |s| :: s[i] in d
    ensures Tok(s, d).0.None? ==> Tok(s, d).1 == []
    ensures Tok(s, d).0.Some? ==> Tokenised(s, d, |s| - |SkipLeading(s, d)|, Tok(s, d).0.value, Tok(s, d).1)
  {
    SkipLeadingSpec(s, d);
    if |SkipLeading(s, d)| > 0 {
      TokFound(s, d);
    }
  }

  lemma TokFound(s: string, d: set<char>)
    requires |SkipLeading(s, d)| > 0
    ensures Tok(s, d).0.Some? && Tokenised(s, d, |s| - |SkipLeading(s, d)|, Tok(s, d).0.value, Tok(s, d).1)
  {
    var t := SkipLeading(s, d);
    SkipLeadingSpec(s, d);
    SpanSpec(t, d);
    TokUnfold(s, d);
    TokenisedAt(s, d, |s| - |t|, t, Span(t, d));
  }

  /** A token found is the span after the leading delimiters, and the scan resumes past the delimiter that ends it. */
  lemma TokUnfold(s: string, d: set<char>)
    requires |SkipLeading(s, d)| > 0
    ensures var t := SkipLeading(s, d); var n := Span(t, d);
      n <= |t| && Tok(s, d) == (Some(t[..n]), if n == |t| then [] else t[n + 1..])
  {
    var t := SkipLeading(s, d);
    assert t[..|t|] == t;
  }

  /** A token cut from the text after its leading delimiters is tokenised at that point. */
  lemma TokenisedAt(s: string, d: set<char>, k: nat, t: string, n: nat)
    requires k <= |s| && t == s[k..] && n <= |t|
    requires forall i | 0 <= i < k :: s[i] in d
    requires forall i | 0 <= i < n :: t[i] !in d
    requires n < |t| ==> t[n] in d
    ensures Tokenised(s, d, k, t[..n], if n == |t| then [] else t[n + 1..])
  {
    assert s[k..k + n] == t[..n];
    if n < |t| {
      assert t[n] == s[k + n] && t[n + 1..] == s[k + n + 1..];
    }
  }

  /** `s` is `k` delimiters, then `tok` (free of delimiters), then its end or one delimiter and `rest`. */
  ghost predicate Tokenised(s: string, d: set<char>, k: nat, tok: string, rest: string)
    requires k <= |s|
  {
    && (forall i | 0 <= i < k :: s[i] in d)
    && k + |tok| <= |s| && s[k..k + |tok|] == tok
    && (forall i | 0 <= i < |tok| :: tok[i] !in d)
    && (if k + |tok| == |s| then rest == [] else s[k + |tok|] in d && rest == s[k + |tok| + 1..])
  }

  /** The index of the delimiter after a word free of delimiters is the word's length. */
  lemma {:induction false} SpanWord(w: string, sep: char, rest: string, d: set<char>)
    requires forall i | 0 <= i < |w| :: w[i] !in d
    requires sep in d
    ensures Span(w + [sep] + rest, d) == |w|
    ensures Span(w, d) == |w|
    decreases |w|
  {
    if |w| > 0 {
      var s := w + [sep] + rest;
      assert s[1..] == w[1..] + [sep] + rest;
      SpanWord(w[1..], sep, rest, d);
    }
  }

  /** A word free of the delimiters is one whole token, and the scan resumes after the delimiter that ends it. */
  lemma TokWord(w: string, sep: char, rest: string, d: set<char>)
    requires |w| > 0 && forall i | 0 <= i < |w| :: w[i] !in d
    requires sep in d
    ensures Tok(w, d) == (Some(w), [])
    ensures Tok(w + [sep] + rest, d) == (Some(w), rest)
  {
    var s := w + [sep] + rest;
    assert s[0] == w[0];
    assert SkipLeading(w, d) == w;
    assert SkipLeading(s, d) == s;
    SpanWord(w, sep, rest, d);
    assert s[..|w|] == w;
    assert s[|w| + 1..] == rest;
  }

  // ---------------------------------------------------------------------
  // Messages

  /** The source of a message: `nick!user@host`, `nick@host`, or a bare nick or server name. */
  datatype Prefix = Prefix(sender: Option<string>, user: Option<string>, host: Option<string>)

  const NoPrefix := Prefix(None, None, None)

  /** A line split into its parts, before the command is interpreted. */
  datatype Line = Line(prefix: Prefix, cmd: string, args: seq<string>)

  /**
   * The command-specific part of `struct ircmsg`. JOIN, PART and QUIT
   * leave `type` as `malloc` returned it: `Unset`.
   */
  datatype Payload =
    | PingMsg(server: string, server2: Option<string>)
    | PrivmsgMsg(target: string, msg: string, isHilight: bool, isPm: bool)
    | Unknown
    | Unset

  /** `struct ircmsg`. */
  datatype Message = Message(network: string, sender: Option<string>, user: Option<string>, host: Option<string>,
                             cmd: string, payload: Payload)

  /** The outcome of a parse as written: NULL, a message, or undefined behaviour. */
  datatype Parsed<T> = Failed | Parsed(value: T) | Undefined

  // ---------------------------------------------------------------------
  // Parsing the prefix

  /**
   * The prefix after its ':' (never empty). With a '!': the nick up to the
   * first '!', then the user and the host, each delimited by '@'; with only
   * an '@': the nick and the host. A missing user or host fails. When the
   * nick token is NULL (the prefix is all '!', or all '@') the code passes
   * it to `strlen`.
   */
  function PrefixAsWritten(p: string): (r: Parsed<Prefix>)
    ensures r.Parsed? ==> r.value.sender.Some?
    ensures r.Parsed? && r.value.user.Some? ==> r.value.host.Some?
  {
    if '!' in p then
      match Tok(p, {'!'})
      case (None, _) => Undefined
      case (Some(nick), r1) =>
        match Tok(r1, {'@'})
        case (None, _) => Failed
        case (Some(user), r2) =>
          match Tok(r2, {'@'})
          case (None, _) => Failed
          case (Some(host), _) => Parsed(Prefix(Some(nick), Some(user), Some(host)))
    else if '@' in p then
      match Tok(p, {'@'})
      case (None, _) => Undefined
      case (Some(nick), r1) =>
        match Tok(r1, {'@'})
        case (None, _) => Failed
        case (Some(host), _) => Parsed(Prefix(Some(nick), None, Some(host)))
    else Parsed(Prefix(Some(p), None, None))
  }

  /** The prefix parse with a missing nick refused like a missing user or host. */
  function ParsePrefix(p: string): (r: Option<Prefix>)
    ensures PrefixAsWritten(p).Parsed? ==> r == Some(PrefixAsWritten(p).value)
    ensures !PrefixAsWritten(p).Parsed? ==> r.None?
  {
    match PrefixAsWritten(p)
    case Parsed(x) => Some(x)
    case _ => None
  }

  /** A word holds none of the prefix separators. */
  predicate PrefixWord(w: string) {
    |w| > 0 && '!' !in w && '@' !in w
  }

  /** The '!' form of the prefix, once its three tokens are known. */
  lemma PrefixBang(p: string, nick: string, r1: string, user: string, r2: string)
    requires '!' in p && Tok(p, {'!'}) == (Some(nick), r1) && Tok(r1, {'@'}) == (Some(user), r2)
    ensures Tok(r2, {'@'}).0.None? ==> PrefixAsWritten(p) == Failed
    ensures Tok(r2, {'@'}).0.Some? ==> PrefixAsWritten(p) == Parsed(Prefix(Some(nick), Some(user), Tok(r2, {'@'}).0))
  {
  }

  /** `nick!user@host` splits into its three parts. */
  lemma PrefixFull(nick: string, user: string, host: string)
    requires PrefixWord(nick) && PrefixWord(user) && PrefixWord(host)
    ensures ParsePrefix(nick + "!" + user + "@" + host) == Some(Prefix(Some(nick), Some(user), Some(host)))
  {
    var tail := user + ['@'] + host;
    var p := nick + ['!'] + tail;
    assert nick + "!" + user + "@" + host == p;
    assert p[|nick|] == '!';
    TokWord(nick, '!', tail, {'!'});
    TokWord(user, '@', host, {'@'});
    TokWord(host, '@', [], {'@'});
    PrefixBang(p, nick, tail, user, host);
  }

  /** `nick@host` splits into the nick and the host, with no user. */
  lemma PrefixHost(nick: string, host: string)
    requires PrefixWord(nick) && PrefixWord(host)
    ensures ParsePrefix(nick + "@" + host) == Some(Prefix(Some(nick), None, Some(host)))
  {
    var p := nick + ['@'] + host;
    assert nick + "@" + host == p;
    assert p[|nick|] == '@';
    assert '!' !in p by {
      assert p == nick + (['@'] + host);
    }
    TokWord(nick, '@', host, {'@'});
    TokWord(host, '@', [], {'@'});
    assert PrefixAsWritten(p) == Parsed(Prefix(Some(nick), None, Some(host)));
  }

  /** A prefix with no separator is the sender alone. */
  lemma PrefixSender(name: string)
    requires PrefixWord(name)
    ensures ParsePrefix(name) == Some(Prefix(Some(name), None, None))
  {
  }

  /** A '!' with nothing after it has no user, and a user with no '@' has no host: both fail. */
  lemma PrefixIncomplete(nick: string, user: string)
    requires PrefixWord(nick) && PrefixWord(user)
    ensures ParsePrefix(nick + "!") == None
    ensures ParsePrefix(nick + "!" + user) == None
  {
    NoUser(nick);
    NoHost(nick, user);
  }

  lemma NoUser(nick: string)
    requires PrefixWord(nick)
    ensures PrefixAsWritten(nick + "!") == Failed
  {
    var p := nick + ['!'] + [];
    assert nick + "!" == p;
    assert p[|nick|] == '!';
    TokWord(nick, '!', [], {'!'});
  }

  lemma NoHost(nick: string, user: string)
    requires PrefixWord(nick) && PrefixWord(user)
    ensures PrefixAsWritten(nick + "!" + user) == Failed
  {
    var p := nick + ['!'] + user;
    assert nick + "!" + user == p;
    assert '!' in p by { assert p[|nick|] == '!'; }
    assert Tok(p, {'!'}) == (Some(nick), user) by { TokWord(nick, '!', user, {'!'}); }
    assert Tok(user, {'@'}) == (Some(user), []) by { TokWord(user, '@', [], {'@'}); }
    PrefixBang(p, nick, user, user, []);
  }

  /** As written, a prefix made of '!' characters alone reaches `strlen(NULL)`. */
  lemma BangOnlyPrefixAsWritten(p: string)
    requires |p| > 0 && forall i | 0 <= i < |p| :: p[i] == '!'
    ensures PrefixAsWritten(p) == Undefined
    ensures ParsePrefix(p) == None
  {
    assert p[0] == '!';
    SkipLeadingSpec(p, {'!'});
  }

  // ---------------------------------------------------------------------
  // Splitting a line

  /**
   * The argument loop as written: up to `sizeof(argv)` tokens. A token
   * starting with ':' ends the loop: if nothing follows it, it is stored
   * without its ':'; otherwise it is stored with its ':' and glued to the
   * rest of the line, without the space between them.
   */
  function ArgsAsWritten(rest: string, i: nat): (r: seq<string>)
    ensures i + |r| <= ARGV_BYTES || (i >= ARGV_BYTES && r == [])
    decreases ARGV_BYTES - i
  {
    if i >= ARGV_BYTES then []
    else
      match Tok(rest, SPACE)
      case (None, _) => []
      case (Some(t), r) =>
        if t[0] == ':' then
          match Tok(r, {})
          case (None, _) => [t[1..]]
          case (Some(t2), _) => [t + t2]
        else [t] + ArgsAsWritten(r, i + 1)
  }

  /**
   * The argument loop with its intended reading: up to CMD_PARAMS_MAX
   * parameters, a trailing parameter being the rest of the line after its
   * ':', spaces included.
   */
  function Args(rest: string, i: nat): (r: seq<string>)
    ensures i + |r| <= CMD_PARAMS_MAX || (i >= CMD_PARAMS_MAX && r == [])
    decreases CMD_PARAMS_MAX - i
  {
    if i >= CMD_PARAMS_MAX then []
    else
      match Tok(rest, SPACE)
      case (None, _) => []
      case (Some(t), r) =>
        if t[0] == ':' then [SkipLeading(rest, SPACE)[1..]]
        else [t] + Args(r, i + 1)
  }

  /**
   * The command and what follows it: as written, storing more than
   * CMD_PARAMS_MAX arguments writes past the end of `argv`.
   */
  function CommandAsWritten(p: Prefix, rest: string): Parsed<Line>
  {
    match Tok(rest, SPACE)
    case (None, _) => Failed
    case (Some(cmd), r) =>
      var args := ArgsAsWritten(r, 0);
      if |args| > CMD_PARAMS_MAX then Undefined else Parsed(Line(p, cmd, args))
  }

  /**
   * `ircmsg_parse` up to the command dispatch, as written: the first token
   * is a prefix when it starts with ':' (a bare ':' fails), and the command
   * is the token after it, or the first token when there is no prefix.
   */
  function SplitAsWritten(line: string): (r: Parsed<Line>)
    ensures r.Parsed? ==> |r.value.args| <= CMD_PARAMS_MAX && |r.value.cmd| > 0
  {
    match Tok(line, SPACE)
    case (None, _) => Failed
    case (Some(t), r0) =>
      if t[0] == ':' then
        if |t| == 1 then Failed
        else
          match PrefixAsWritten(t[1..])
          case Failed => Failed
          case Undefined => Undefined
          case Parsed(p) => CommandAsWritten(p, r0)
      else
        var args := ArgsAsWritten(r0, 0);
        if |args| > CMD_PARAMS_MAX then Undefined else Parsed(Line(NoPrefix, t, args))
  }

  /** The split with all three repairs: no NULL nick, at most CMD_PARAMS_MAX parameters, trailing spaces kept. */
  function Split(line: string): (r: Option<Line>)
    ensures r.Some? ==> |r.value.args| <= CMD_PARAMS_MAX && |r.value.cmd| > 0
  {
    match Tok(line, SPACE)
    case (None, _) => None
    case (Some(t), r0) =>
      if t[0] == ':' then
        if |t| == 1 then None
        else
          match ParsePrefix(t[1..])
          case None => None
          case Some(p) =>
            match Tok(r0, SPACE)
            case (None, _) => None
            case (Some(cmd), r) => Some(Line(p, cmd, Args(r, 0)))
      else Some(Line(NoPrefix, t, Args(r0, 0)))
  }

  // ---------------------------------------------------------------------
  // Interpreting the command

  /** ASCII lower case, as `strcasecmp` folds in the C locale. */
  function Lower(c: char): char {
    if 'A' <= c <= 'Z' then (c as int - 'A' as int + 'a' as int) as char else c
  }

  /** `strcasecmp(a, b) == 0`. */
  predicate SameIgnoringCase(a: string, b: string) {
    |a| == |b| && forall i | 0 <= i < |a| :: Lower(a[i]) == Lower(b[i])
  }

  /** JOIN, PART and QUIT are none of them PING or PRIVMSG, whatever the case. */
  lemma CommandsDistinct(c: string)
    ensures SameIgnoringCase(c, "JOIN") || SameIgnoringCase(c, "PART") || SameIgnoringCase(c, "QUIT") ==>
      !SameIgnoringCase(c, "PING") && !SameIgnoringCase(c, "PRIVMSG")
  {
    if SameIgnoringCase(c, "PING") {
      assert Lower(c[0]) == 'p' && Lower(c[1]) == 'i';
    }
  }

  /**
   * The command dispatch: PING takes one or two arguments, PRIVMSG exactly
   * two, and either fails otherwise; JOIN, PART and QUIT leave the type
   * unset; every other command is UNKNOWN.
   */
  function Dispatch(network: string, l: Line): (r: Option<Message>)
    ensures SameIgnoringCase(l.cmd, "PING") ==> (r.Some? <==> 1 <= |l.args| <= 2)
    ensures SameIgnoringCase(l.cmd, "PRIVMSG") ==> (r.Some? <==> |l.args| == 2)
    ensures !SameIgnoringCase(l.cmd, "PING") && !SameIgnoringCase(l.cmd, "PRIVMSG") ==> r.Some? && !r.value.payload.PingMsg? && !r.value.payload.PrivmsgMsg?
    ensures r.Some? && r.value.payload.PingMsg? ==> l.args == [r.value.payload.server] + Trail(r.value.payload.server2)
    ensures r.Some? && r.value.payload.PrivmsgMsg? ==> l.args == [r.value.payload.target, r.value.payload.msg]
    ensures r.Some? ==> r.value.cmd == l.cmd && r.value.network == network
    ensures r.Some? ==> r.value.sender == l.prefix.sender && r.value.user == l.prefix.user && r.value.host == l.prefix.host
    ensures SameIgnoringCase(l.cmd, "JOIN") || SameIgnoringCase(l.cmd, "PART") || SameIgnoringCase(l.cmd, "QUIT") ==>
      r == Some(Message(network, l.prefix.sender, l.prefix.user, l.prefix.host, l.cmd, Unset))
    ensures (!SameIgnoringCase(l.cmd, "PING") && !SameIgnoringCase(l.cmd, "PRIVMSG") && !SameIgnoringCase(l.cmd, "JOIN")
             && !SameIgnoringCase(l.cmd, "PART") && !SameIgnoringCase(l.cmd, "QUIT")) ==>
      r == Some(Message(network, l.prefix.sender, l.prefix.user, l.prefix.host, l.cmd, Unknown))
  {
    CommandsDistinct(l.cmd);
    var payload :=
      if SameIgnoringCase(l.cmd, "PING") then
        if |l.args| < 1 || |l.args| > 2 then None
        else Some(PingMsg(l.args[0], if |l.args| == 2 then Some(l.args[1]) else None))
      else if SameIgnoringCase(l.cmd, "PRIVMSG") then
        if |l.args| != 2 then None else Some(PrivmsgMsg(l.args[0], l.args[1], false, false))
      else if SameIgnoringCase(l.cmd, "JOIN") || SameIgnoringCase(l.cmd, "PART") || SameIgnoringCase(l.cmd, "QUIT") then
        Some(Unset)
      else Some(Unknown);
    match payload
    case None => None
    case Some(x) => Some(Message(network, l.prefix.sender, l.prefix.user, l.prefix.host, l.cmd, x))
  }

  /** `ircmsg_parse` as written. */
  function ParseAsWritten(network: CString, line: CString): (r: Parsed<Message>)
    ensures r.Undefined? <==> SplitAsWritten(line).Undefined?
    ensures r.Parsed? ==> r.value.network == network && |r.value.cmd| > 0
  {
    match SplitAsWritten(line)
    case Failed => Failed
    case Undefined => Undefined
    case Parsed(l) => match Dispatch(network, l) case None => Failed case Some(m) => Parsed(m)
  }

  /** `ircmsg_parse` with the repaired split. */
  function Parse(network: CString, line: CString): (r: Option<Message>)
    ensures Split(line).None? ==> r.None?
    ensures r.Some? ==> r.value.network == network && |r.value.cmd| > 0
  {
    match Split(line)
    case None => None
    case Some(l) => Dispatch(network, l)
  }

  // ---------------------------------------------------------------------
  // Lines made of words

  /** A middle parameter (or a command): not empty, no space, no leading ':'. */
  predicate Middle(w: string) {
    |w| > 0 && w[0] != ':' && ' ' !in w
  }

  /** The trailing parameter as a list of zero or one arguments. */
  function Trail(trailing: Option<string>): seq<string> {
    match trailing
    case None => []
    case Some(t) => [t]
  }

  /** Words joined by single spaces, followed by " :" and the trailing parameter when there is one. */
  function Unwords(ws: seq<string>, trailing: Option<string>): (r: string)
    decreases |ws|
  {
    if |ws| == 0 then
      match trailing
      case None => []
      case Some(t) => ":" + t
    else if |ws| == 1 && trailing.None? then ws[0]
    else ws[0] + " " + Unwords(ws[1..], trailing)
  }

  /** Unwords, one word at a time. */
  lemma UnwordsCons(w: string, ws: seq<string>, trailing: Option<string>)
    requires |ws| > 0 || trailing.Some?
    ensures Unwords([w] + ws, trailing) == w + " " + Unwords(ws, trailing)
  {
    assert ([w] + ws)[1..] == ws;
  }

  /** A word of the line followed by the rest of it is one token. */
  lemma TokMiddle(w: string, rest: string)
    requires Middle(w)
    ensures Tok(w, SPACE) == (Some(w), [])
    ensures Tok(w + " " + rest, SPACE) == (Some(w), rest)
  {
    assert w + " " + rest == w + [' '] + rest;
    TokWord(w, ' ', rest, SPACE);
  }

  /** A trailing parameter starts a token with its ':'. */
  lemma TokTrailing(t: string)
    ensures Tok(":" + t, SPACE).0.Some?
    ensures Tok(":" + t, SPACE).0.value[0] == ':'
    ensures SkipLeading(":" + t, SPACE) == ":" + t
    ensures ' ' !in t ==> Tok(":" + t, SPACE) == (Some(":" + t), [])
  {
    var s := ":" + t;
    assert s[0] == ':';
    assert SkipLeading(s, SPACE) == s;
    assert Span(s, SPACE) >= 1;
    if ' ' !in t {
      TokWord(s, ' ', [], SPACE);
    }
  }

  /** The first `n` elements of a sequence, or all of them when there are fewer. */
  function Cap<T>(s: seq<T>, n: nat): (r: seq<T>)
    ensures |r| <= n && r <= s
    ensures |s| <= n ==> r == s
  {
    if |s| <= n then s else s[..n]
  }

  lemma ConsAppend<T>(s: seq<T>, u: seq<T>)
    ensures |s| == 0 ==> s + u == u
    ensures |s| == 1 ==> s + [] == [s[0]]
    ensures |s| > 0 ==> s + u == [s[0]] + (s[1..] + u)
  {
    if |s| > 0 {
      assert s == [s[0]] + s[1..];
    }
  }

  lemma CapCons<T>(x: T, s: seq<T>, n: nat)
    ensures Cap([x] + s, n + 1) == [x] + Cap(s, n)
  {
    if |s| > n {
      assert ([x] + s)[..n + 1] == [x] + s[..n];
    }
  }

  /** One turn of the argument loop, for a middle token and for a trailing one. */
  lemma ArgsStep(rest: string, i: nat, w: string, r: string)
    requires i < CMD_PARAMS_MAX && Tok(rest, SPACE) == (Some(w), r)
    ensures w[0] != ':' ==> Args(rest, i) == [w] + Args(r, i + 1)
    ensures w[0] == ':' ==> Args(rest, i) == [SkipLeading(rest, SPACE)[1..]]
  {
  }

  lemma ArgsAsWrittenStep(rest: string, i: nat, w: string, r: string)
    requires i < ARGV_BYTES && Tok(rest, SPACE) == (Some(w), r)
    ensures w[0] != ':' ==> ArgsAsWritten(rest, i) == [w] + ArgsAsWritten(r, i + 1)
    ensures w[0] == ':' && Tok(r, {}).0.None? ==> ArgsAsWritten(rest, i) == [w[1..]]
  {
  }

  /** The loops on the last words of a line: nothing, a trailing parameter, a final middle one, a middle one and more. */
  lemma ArgsWords(w: string, t: string, tail: string, i: nat)
    requires i < CMD_PARAMS_MAX
    ensures Args([], i) == []
    ensures Args(":" + t, i) == [t]
    ensures Middle(w) ==> Args(w, i) == [w]
    ensures Middle(w) ==> Args(w + " " + tail, i) == [w] + Args(tail, i + 1)
  {
    TokTrailing(t);
    ArgsStep(":" + t, i, Tok(":" + t, SPACE).0.value, Tok(":" + t, SPACE).1);
    assert (":" + t)[1..] == t;
    if Middle(w) {
      TokMiddle(w, []);
      ArgsStep(w, i, w, []);
      TokMiddle(w, tail);
      ArgsStep(w + " " + tail, i, w, tail);
    }
  }

  lemma ArgsAsWrittenWords(w: string, t: string, tail: string, i: nat)
    requires i < ARGV_BYTES
    ensures ArgsAsWritten([], i) == []
    ensures ' ' !in t ==> ArgsAsWritten(":" + t, i) == [t]
    ensures Middle(w) ==> ArgsAsWritten(w, i) == [w]
    ensures Middle(w) ==> ArgsAsWritten(w + " " + tail, i) == [w] + ArgsAsWritten(tail, i + 1)
  {
    if ' ' !in t {
      TokTrailing(t);
      ArgsAsWrittenStep(":" + t, i, ":" + t, []);
      assert (":" + t)[1..] == t;
    }
    if Middle(w) {
      TokMiddle(w, []);
      ArgsAsWrittenStep(w, i, w, []);
      TokMiddle(w, tail);
      ArgsAsWrittenStep(w + " " + tail, i, w, tail);
    }
  }

  /** The arguments read back from words: all of them, cut at CMD_PARAMS_MAX, trailing spaces kept. */
  lemma {:induction false} ArgsUnwords(ws: seq<string>, trailing: Option<string>, i: nat)
    requires forall j | 0 <= j < |ws| :: Middle(ws[j])
    requires i <= CMD_PARAMS_MAX
    ensures Args(Unwords(ws, trailing), i) == Cap(ws + Trail(trailing), CMD_PARAMS_MAX - i)
    decreases |ws|
  {
    if i == CMD_PARAMS_MAX {
      assert Args(Unwords(ws, trailing), i) == [];
    } else if |ws| == 0 || (|ws| == 1 && trailing.None?) {
      ArgsUnwordsLast(ws, trailing, i);
    } else {
      var rest := ws[1..];
      assert forall j | 0 <= j < |rest| :: rest[j] == ws[j + 1];
      ArgsUnwords(rest, trailing, i + 1);
      ArgsUnwordsCons(ws, trailing, i);
    }
  }

  /** The last argument read back: the trailing one alone, or the last word with no trailing one. */
  lemma ArgsUnwordsLast(ws: seq<string>, trailing: Option<string>, i: nat)
    requires |ws| == 0 || (|ws| == 1 && trailing.None? && Middle(ws[0]))
    requires i < CMD_PARAMS_MAX
    ensures Args(Unwords(ws, trailing), i) == Cap(ws + Trail(trailing), CMD_PARAMS_MAX - i)
  {
    if |ws| == 0 {
      ArgsWords("x", if trailing.Some? then trailing.value else [], [], i);
    } else {
      ArgsWords(ws[0], [], [], i);
    }
    ConsAppend(ws, Trail(trailing));
  }

  lemma ArgsUnwordsCons(ws: seq<string>, trailing: Option<string>, i: nat)
    requires |ws| > 0 && Middle(ws[0]) && i < CMD_PARAMS_MAX && !(|ws| == 1 && trailing.None?)
    requires Args(Unwords(ws[1..], trailing), i + 1) == Cap(ws[1..] + Trail(trailing), CMD_PARAMS_MAX - i - 1)
    ensures Args(Unwords(ws, trailing), i) == Cap(ws + Trail(trailing), CMD_PARAMS_MAX - i)
  {
    var tail := Unwords(ws[1..], trailing);
    assert Args(tail, i + 1) == Cap(ws[1..] + Trail(trailing), CMD_PARAMS_MAX - i - 1);
    assert Unwords(ws, trailing) == ws[0] + " " + tail;
    ArgsWords(ws[0], [], tail, i);
    assert Args(Unwords(ws, trailing), i) == [ws[0]] + Args(tail, i + 1);
    ConsAppend(ws, Trail(trailing));
    CapCons(ws[0], ws[1..] + Trail(trailing), CMD_PARAMS_MAX - i - 1);
  }

  /**
   * The arguments read back by the loop as written: all of them, cut at
   * `sizeof(argv)`, when the trailing parameter is a single word.
   */
  lemma {:induction false} ArgsAsWrittenUnwords(ws: seq<string>, trailing: Option<string>, i: nat)
    requires forall j | 0 <= j < |ws| :: Middle(ws[j])
    requires trailing.Some? ==> ' ' !in trailing.value
    requires i <= ARGV_BYTES
    ensures ArgsAsWritten(Unwords(ws, trailing), i) == Cap(ws + Trail(trailing), ARGV_BYTES - i)
    decreases |ws|
  {
    var all := ws + Trail(trailing);
    if i == ARGV_BYTES {
    } else if |ws| == 0 {
      ArgsAsWrittenWords("x", if trailing.Some? then trailing.value else [], [], i);
      ConsAppend(ws, Trail(trailing));
    } else if |ws| == 1 && trailing.None? {
      ArgsAsWrittenWords(ws[0], [], [], i);
      ConsAppend(ws, Trail(trailing));
    } else {
      ArgsAsWrittenUnwords(ws[1..], trailing, i + 1);
      ArgsAsWrittenUnwordsCons(ws, trailing, i);
    }
  }

  lemma ArgsAsWrittenUnwordsCons(ws: seq<string>, trailing: Option<string>, i: nat)
    requires |ws| > 0 && Middle(ws[0]) && i < ARGV_BYTES && !(|ws| == 1 && trailing.None?)
    requires ArgsAsWritten(Unwords(ws[1..], trailing), i + 1) == Cap(ws[1..] + Trail(trailing), ARGV_BYTES - i - 1)
    ensures ArgsAsWritten(Unwords(ws, trailing), i) == Cap(ws + Trail(trailing), ARGV_BYTES - i)
  {
    var tail := Unwords(ws[1..], trailing);
    assert ArgsAsWritten(tail, i + 1) == Cap(ws[1..] + Trail(trailing), ARGV_BYTES - i - 1);
    assert Unwords(ws, trailing) == ws[0] + " " + tail;
    ArgsAsWrittenWords(ws[0], [], tail, i);
    assert ArgsAsWritten(Unwords(ws, trailing), i) == [ws[0]] + ArgsAsWritten(tail, i + 1);
    ConsAppend(ws, Trail(trailing));
    CapCons(ws[0], ws[1..] + Trail(trailing), ARGV_BYTES - i - 1);
  }

  /** A line of words splits into its command and its parameters, the first CMD_PARAMS_MAX of them. */
  lemma SplitUnwords(ws: seq<string>, trailing: Option<string>)
    requires |ws| > 0 && forall j | 0 <= j < |ws| :: Middle(ws[j])
    ensures var params := ws[1..] + Trail(trailing);
      Split(Unwords(ws, trailing))
        == Some(Line(NoPrefix, ws[0], Cap(params, CMD_PARAMS_MAX)))
  {
    var line := Unwords(ws, trailing);
    if |ws| == 1 && trailing.None? {
      TokMiddle(ws[0], []);
    } else {
      TokMiddle(ws[0], Unwords(ws[1..], trailing));
    }
    ArgsUnwords(ws[1..], trailing, 0);
  }

  /**
   * As written, the same line splits into its command and all its
   * parameters when there are at most CMD_PARAMS_MAX of them, and
   * overruns `argv` when there are more.
   */
  lemma SplitAsWrittenUnwords(ws: seq<string>, trailing: Option<string>)
    requires |ws| > 0 && forall j | 0 <= j < |ws| :: Middle(ws[j])
    requires trailing.Some? ==> ' ' !in trailing.value
    requires |ws| - 1 + |Trail(trailing)| <= ARGV_BYTES
    ensures var params := ws[1..] + Trail(trailing);
      SplitAsWritten(Unwords(ws, trailing))
        == if |params| <= CMD_PARAMS_MAX then Parsed(Line(NoPrefix, ws[0], params)) else Undefined
  {
    if |ws| == 1 && trailing.None? {
      TokMiddle(ws[0], []);
    } else {
      TokMiddle(ws[0], Unwords(ws[1..], trailing));
    }
    ArgsAsWrittenUnwords(ws[1..], trailing, 0);
  }

  /** A prefixed line splits like the same line without the prefix, carrying the parsed prefix. */
  lemma SplitPrefixed(pre: string, ws: seq<string>, trailing: Option<string>)
    requires |pre| > 0 && ' ' !in pre && ParsePrefix(pre).Some?
    requires |ws| > 0 && forall j | 0 <= j < |ws| :: Middle(ws[j])
    ensures var params := ws[1..] + Trail(trailing);
      Split(":" + pre + " " + Unwords(ws, trailing))
        == Some(Line(ParsePrefix(pre).value, ws[0], Cap(params, CMD_PARAMS_MAX)))
  {
    var head := ":" + pre;
    var line := Unwords(ws, trailing);
    assert head[1..] == pre;
    assert ' ' !in head;
    TokWord(head, ' ', line, SPACE);
    assert ":" + pre + " " + line == head + [' '] + line;
    if |ws| == 1 && trailing.None? {
      TokMiddle(ws[0], []);
    } else {
      TokMiddle(ws[0], Unwords(ws[1..], trailing));
    }
    ArgsUnwords(ws[1..], trailing, 0);
  }

  // ---------------------------------------------------------------------
  // Builders and parser together

  /** A line formatted with room to spare comes back whole, and loses its CR LF to `Body`. */
  lemma Fits(x: string)
    requires |x| + 2 <= SIZE_MAX
    ensures Truncate(x + CRLF) == x + CRLF
    ensures Body(Truncate(x + CRLF)) == x
  {
    var line := x + CRLF;
    assert line[|line| - 2..] == CRLF;
    assert line[..|line| - 2] == x;
  }

  /** A NICK line splits back into NICK and the nick. */
  lemma NickRoundTrip(nick: CString)
    requires Middle(nick) && |nick| + 7 <= SIZE_MAX
    ensures Split(Body(Nick(nick))) == Some(Line(NoPrefix, "NICK", [nick]))
  {
    var line := Unwords(["NICK", nick], None);
    assert Body(Nick(nick)) == line by {
      Fits("NICK " + nick);
      UnwordsCons("NICK", [nick], None);
      assert ["NICK"] + [nick] == ["NICK", nick];
    }
    assert Split(line) == Some(Line(NoPrefix, "NICK", [nick])) by {
      SplitUnwords(["NICK", nick], None);
      assert ["NICK", nick][1..] + Trail(None) == [nick];
    }
  }

  /**
   * The parser does not strip a terminating CR LF: fed a NICK line as the
   * builder formats it, both splits keep the CR LF glued to the nick.
   */
  lemma CrLfKept(nick: CString)
    requires Middle(nick) && |nick| + 7 <= SIZE_MAX
    ensures Split(Nick(nick)) == Some(Line(NoPrefix, "NICK", [nick + CRLF]))
    ensures SplitAsWritten(Nick(nick)) == Parsed(Line(NoPrefix, "NICK", [nick + CRLF]))
  {
    var w := nick + CRLF;
    assert Middle(w) by {
      assert w[0] == nick[0];
      assert ' ' !in CRLF;
    }
    assert Nick(nick) == Unwords(["NICK", w], None) by {
      Fits("NICK " + nick);
      UnwordsCons("NICK", [w], None);
      assert ["NICK"] + [w] == ["NICK", w];
    }
    assert ["NICK", w][1..] + Trail(None) == [w];
    SplitUnwords(["NICK", w], None);
    SplitAsWrittenUnwords(["NICK", w], None);
  }

  /** A PASS line splits back into PASS and the password, whatever spaces it holds. */
  lemma PassRoundTrip(pass: CString)
    requires |pass| + 8 <= SIZE_MAX
    ensures Split(Body(Pass(pass))) == Some(Line(NoPrefix, "PASS", [pass]))
  {
    Fits("PASS :" + pass);
    assert Unwords(["PASS"], Some(pass)) == "PASS :" + pass;
    SplitUnwords(["PASS"], Some(pass));
  }

  /** A JOIN line splits back into JOIN, the channels and the keys when given. */
  lemma JoinRoundTrip(channels: CString, keys: Option<CString>)
    requires Middle(channels) && (keys.Some? ==> Middle(keys.value))
    requires |channels| + (if keys.Some? then |keys.value| + 1 else 0) + 7 <= SIZE_MAX
    ensures Split(Body(Join(channels, keys))) == Some(Line(NoPrefix, "JOIN", [channels] + Trail(keys)))
  {
    if keys.Some? {
      JoinKeysRoundTrip(channels, keys.value);
      assert [channels, keys.value] == [channels] + Trail(keys);
    } else {
      JoinChannelsRoundTrip(channels);
      assert [channels] == [channels] + Trail(keys);
    }
  }

  /** The JOIN line with keys, as words. */
  lemma JoinKeysWords(channels: CString, k: CString)
    ensures Unwords(["JOIN", channels, k], None) == "JOIN " + channels + " " + k
  {
    UnwordsCons(channels, [k], None);
    assert [channels] + [k] == [channels, k];
    assert Unwords([channels, k], None) == channels + " " + k;
    UnwordsCons("JOIN", [channels, k], None);
    assert ["JOIN"] + [channels, k] == ["JOIN", channels, k];
  }

  /** The JOIN line with keys, without its CRLF: three words. */
  lemma JoinKeysBody(channels: CString, k: CString)
    requires |channels| + |k| + 8 <= SIZE_MAX
    ensures Body(Join(channels, Some(k))) == Unwords(["JOIN", channels, k], None)
  {
    Fits("JOIN " + channels + " " + k);
    JoinKeysWords(channels, k);
  }

  lemma JoinKeysRoundTrip(channels: CString, k: CString)
    requires Middle(channels) && Middle(k) && |channels| + |k| + 8 <= SIZE_MAX
    ensures Split(Body(Join(channels, Some(k)))) == Some(Line(NoPrefix, "JOIN", [channels, k]))
  {
    JoinKeysBody(channels, k);
    SplitUnwords(["JOIN", channels, k], None);
    assert ["JOIN", channels, k][1..] + Trail(None) == [channels, k];
  }

  lemma JoinChannelsRoundTrip(channels: CString)
    requires Middle(channels) && |channels| + 7 <= SIZE_MAX
    ensures Split(Body(Join(channels, None))) == Some(Line(NoPrefix, "JOIN", [channels]))
  {
    var line := Unwords(["JOIN", channels], None);
    assert Body(Join(channels, None)) == line by {
      Fits("JOIN " + channels);
      UnwordsCons("JOIN", [channels], None);
      assert ["JOIN"] + [channels] == ["JOIN", channels];
    }
    assert Split(line) == Some(Line(NoPrefix, "JOIN", [channels])) by {
      SplitUnwords(["JOIN", channels], None);
      assert ["JOIN", channels][1..] + Trail(None) == [channels];
    }
  }

  /** The PONG line without its CRLF: the command and the server as words, the second server trailing. */
  lemma PongBody(server: CString, server2: Option<CString>)
    requires |server| + (if server2.Some? then |server2.value| + 2 else 0) + 7 <= SIZE_MAX
    ensures Body(Pong(server, server2)) == Unwords(["PONG", server], server2)
  {
    UnwordsCons("PONG", [server], server2);
    assert ["PONG"] + [server] == ["PONG", server];
    if server2.Some? {
      Fits("PONG " + server + " :" + server2.value);
      UnwordsCons(server, [], server2);
      assert [server] + [] == [server];
    } else {
      Fits("PONG " + server);
    }
  }

  /** A PONG line splits back into PONG, the server and the second server when given. */
  lemma PongRoundTrip(server: CString, server2: Option<CString>)
    requires Middle(server)
    requires |server| + (if server2.Some? then |server2.value| + 2 else 0) + 7 <= SIZE_MAX
    ensures Split(Body(Pong(server, server2))) == Some(Line(NoPrefix, "PONG", [server] + Trail(server2)))
  {
    PongBody(server, server2);
    SplitUnwords(["PONG", server], server2);
    assert ["PONG", server][1..] + Trail(server2) == [server] + Trail(server2);
  }


  /** The mode, `*` and the real name of a USER line, as words and a trailing parameter. */
  lemma UserTail(mode: CString, realName: CString)
    ensures Unwords([mode, "*"], Some(realName)) == mode + " * :" + realName
  {
    var t := Some(realName);
    UnwordsCons("*", [], t);
    assert ["*"] + [] == ["*"];
    assert Unwords(["*"], t) == "* :" + realName;
    UnwordsCons(mode, ["*"], t);
    assert [mode] + ["*"] == [mode, "*"];
  }

  /** The USER line, as words and a trailing parameter. */
  lemma UserWords(user: CString, mode: CString, realName: CString)
    ensures Unwords(["USER", user, mode, "*"], Some(realName)) == "USER " + user + " " + mode + " * :" + realName
  {
    var t := Some(realName);
    UserTail(mode, realName);
    UnwordsCons(user, [mode, "*"], t);
    assert [user] + [mode, "*"] == [user, mode, "*"];
    assert Unwords([user, mode, "*"], t) == user + " " + mode + " * :" + realName;
    UnwordsCons("USER", [user, mode, "*"], t);
    assert ["USER"] + [user, mode, "*"] == ["USER", user, mode, "*"];
  }

  /** The USER line without its CRLF: the user name, the mode and `*` as words, the real name trailing. */
  lemma UserBody(user: CString, mode: CString, realName: CString)
    requires |user| + |mode| + |realName| + 12 <= SIZE_MAX
    ensures Body(User(user, mode, realName)) == Unwords(["USER", user, mode, "*"], Some(realName))
  {
    Fits("USER " + user + " " + mode + " * :" + realName);
    UserWords(user, mode, realName);
  }

  /** A USER line splits back into USER, the user name, the mode, `*` and the real name. */
  lemma UserRoundTrip(user: CString, mode: CString, realName: CString)
    requires Middle(user) && Middle(mode)
    requires |user| + |mode| + |realName| + 12 <= SIZE_MAX
    ensures Split(Body(User(user, mode, realName))) == Some(Line(NoPrefix, "USER", [user, mode, "*", realName]))
  {
    var t := Some(realName);
    UserBody(user, mode, realName);
    SplitUnwords(["USER", user, mode, "*"], t);
    assert ["USER", user, mode, "*"][1..] + Trail(t) == [user, mode, "*", realName];
  }

  /** The PRIVMSG line without its CRLF: the command, the target and the text as a trailing argument. */
  lemma PrivmsgBody(target: CString, text: CString)
    requires |target| + |text| + 12 <= SIZE_MAX
    ensures Body(Privmsg(target, text)) == Unwords(["PRIVMSG", target], Some(text))
    ensures '\0' !in Body(Privmsg(target, text))
  {
    UnwordsCons(target, [], Some(text));
    UnwordsCons("PRIVMSG", [target], Some(text));
    assert [target] + [] == [target];
    assert ["PRIVMSG"] + [target] == ["PRIVMSG", target];
    var line := "PRIVMSG " + target + " :" + text;
    assert Unwords(["PRIVMSG", target], Some(text)) == line;
    Fits(line);
  }

  /** A PRIVMSG line splits back into PRIVMSG, the target and the text. */
  lemma PrivmsgSplit(target: CString, text: CString)
    requires Middle(target) && |target| + |text| + 12 <= SIZE_MAX
    ensures Body(Privmsg(target, text)) == Unwords(["PRIVMSG", target], Some(text))
    ensures '\0' !in Body(Privmsg(target, text))
    ensures Split(Body(Privmsg(target, text))) == Some(Line(NoPrefix, "PRIVMSG", [target, text]))
  {
    PrivmsgBody(target, text);
    SplitUnwords(["PRIVMSG", target], Some(text));
    assert ["PRIVMSG", target][1..] + Trail(Some(text)) == [target, text];
  }

  /** The PRIVMSG the bot sends parses back to the same target and text, spaces and all. */
  lemma PrivmsgRoundTrip(network: CString, target: CString, text: CString)
    requires Middle(target) && |target| + |text| + 12 <= SIZE_MAX
    ensures '\0' !in Body(Privmsg(target, text))
    ensures Parse(network, Body(Privmsg(target, text)))
      == Some(Message(network, None, None, None, "PRIVMSG", PrivmsgMsg(target, text, false, false)))
  {
    PrivmsgSplit(target, text);
    DispatchPrivmsg(network, target, text);
  }

  /** A split PRIVMSG with its two arguments becomes a PRIVMSG message from no one. */
  lemma DispatchPrivmsg(network: string, target: string, text: string)
    ensures Dispatch(network, Line(NoPrefix, "PRIVMSG", [target, text]))
      == Some(Message(network, None, None, None, "PRIVMSG", PrivmsgMsg(target, text, false, false)))
  {
    assert SameIgnoringCase("PRIVMSG", "PRIVMSG");
  }

  /** As written, the round trip holds only for text without a space. */
  lemma PrivmsgRoundTripAsWritten(network: CString, target: CString, text: CString)
    requires Middle(target) && ' ' !in text && |target| + |text| + 12 <= SIZE_MAX
    ensures '\0' !in Body(Privmsg(target, text))
    ensures ParseAsWritten(network, Body(Privmsg(target, text)))
      == Parsed(Message(network, None, None, None, "PRIVMSG", PrivmsgMsg(target, text, false, false)))
  {
    PrivmsgSplit(target, text);
    var line := Unwords(["PRIVMSG", target], Some(text));
    assert SplitAsWritten(line) == Parsed(Line(NoPrefix, "PRIVMSG", [target, text])) by {
      SplitAsWrittenUnwords(["PRIVMSG", target], Some(text));
      assert ["PRIVMSG", target][1..] + Trail(Some(text)) == [target, text];
    }
    DispatchPrivmsg(network, target, text);
  }

  /**
   * As written, a trailing parameter with a space comes back with its ':'
   * kept and the first space dropped: `:a b` is read as `:ab`.
   */
  lemma TrailingGluedAsWritten(network: CString, target: CString, a: CString, b: CString)
    requires Middle(target) && ' ' !in a && |b| > 0
    ensures ParseAsWritten(network, "PRIVMSG " + target + " :" + a + " " + b)
      == Parsed(Message(network, None, None, None, "PRIVMSG", PrivmsgMsg(target, ":" + a + b, false, false)))
  {
    TrailingSplitAsWritten(target, a, b);
    assert SameIgnoringCase("PRIVMSG", "PRIVMSG");
  }

  /** Read correctly, the same line delivers the text whole, space included, without the ':'. */
  lemma TrailingKept(network: CString, target: CString, a: CString, b: CString)
    requires Middle(target) && ' ' !in a
    ensures Parse(network, "PRIVMSG " + target + " :" + a + " " + b)
      == Some(Message(network, None, None, None, "PRIVMSG", PrivmsgMsg(target, a + " " + b, false, false)))
  {
    TrailingSplit(target, a, b);
    assert SameIgnoringCase("PRIVMSG", "PRIVMSG");
  }

  lemma TrailingSplitAsWritten(target: string, a: string, b: string)
    requires Middle(target) && ' ' !in a && |b| > 0
    ensures SplitAsWritten("PRIVMSG " + target + " :" + a + " " + b) == Parsed(Line(NoPrefix, "PRIVMSG", [target, ":" + a + b]))
  {
    var t := ":" + a;
    var rest := target + " " + (t + " " + b);
    var line := "PRIVMSG " + target + " :" + a + " " + b;
    assert line == "PRIVMSG" + " " + rest;
    assert Tok(line, SPACE) == (Some("PRIVMSG"), rest) by {
      TokMiddle("PRIVMSG", rest);
    }
    assert ArgsAsWritten(rest, 0) == [target, t + b] by {
      ArgsAsWrittenWords(target, [], t + " " + b, 0);
      TrailingGluedStep(t, b);
    }
  }

  lemma TrailingSplit(target: string, a: string, b: string)
    requires Middle(target) && ' ' !in a
    ensures Split("PRIVMSG " + target + " :" + a + " " + b) == Some(Line(NoPrefix, "PRIVMSG", [target, a + " " + b]))
  {
    var rest := target + " " + (":" + a + " " + b);
    var line := "PRIVMSG " + target + " :" + a + " " + b;
    assert line == "PRIVMSG" + " " + rest;
    TokMiddle("PRIVMSG", rest);
    TrailingArgs(target, a, b);
  }

  lemma TrailingArgs(target: string, a: string, b: string)
    requires Middle(target)
    ensures Args(target + " " + (":" + a + " " + b), 0) == [target, a + " " + b]
  {
    var tail := ":" + (a + " " + b);
    assert ":" + a + " " + b == tail;
    ArgsWords(target, [], tail, 0);
    ArgsWords("x", a + " " + b, [], 1);
  }

  /** The step of the loop as written that glues a trailing parameter to the rest of the line. */
  lemma TrailingGluedStep(t: string, b: string)
    requires |t| > 0 && t[0] == ':' && ' ' !in t && |b| > 0
    ensures ArgsAsWritten(t + " " + b, 1) == [t + b]
  {
    assert t + " " + b == t + [' '] + b;
    TokWord(t, ' ', b, SPACE);
    SpanSpec(b, {});
    assert Tok(b, {}) == (Some(b), []);
  }

  /** `PRIVMSG #test :hello world` reaches the bot as `:helloworld`. */
  lemma HelloWorldAsWritten()
    ensures ParseAsWritten("net", "PRIVMSG #test :hello world")
      == Parsed(Message("net", None, None, None, "PRIVMSG", PrivmsgMsg("#test", ":helloworld", false, false)))
  {
    assert "PRIVMSG #test :hello world" == "PRIVMSG " + "#test" + " :" + "hello" + " " + "world";
    assert ":" + "hello" + "world" == ":helloworld";
    TrailingGluedAsWritten("net", "#test", "hello", "world");
  }

  /** Read correctly, `PRIVMSG #test :hello world` reaches the bot as `hello world`. */
  lemma HelloWorld()
    ensures Parse("net", "PRIVMSG #test :hello world")
      == Some(Message("net", None, None, None, "PRIVMSG", PrivmsgMsg("#test", "hello world", false, false)))
  {
    assert "PRIVMSG #test :hello world" == "PRIVMSG " + "#test" + " :" + "hello" + " " + "world";
    assert "hello" + " " + "world" == "hello world";
    TrailingKept("net", "#test", "hello", "world");
  }

  /**
   * As written, a line with more than CMD_PARAMS_MAX middle parameters
   * stores past the end of `argv`; the repaired loop keeps the first
   * CMD_PARAMS_MAX of them.
   */
  lemma TooManyParamsAsWritten(ws: seq<string>)
    requires |ws| > 0 && forall j | 0 <= j < |ws| :: Middle(ws[j])
    requires CMD_PARAMS_MAX < |ws| - 1 <= ARGV_BYTES
    ensures SplitAsWritten(Unwords(ws, None)) == Undefined
    ensures Split(Unwords(ws, None)) == Some(Line(NoPrefix, ws[0], ws[1..CMD_PARAMS_MAX + 1]))
  {
    SplitAsWrittenUnwords(ws, None);
    TooManyParamsRepaired(ws);
  }

  lemma TooManyParamsRepaired(ws: seq<string>)
    requires |ws| > 0 && forall j | 0 <= j < |ws| :: Middle(ws[j])
    requires CMD_PARAMS_MAX < |ws| - 1
    ensures Split(Unwords(ws, None)) == Some(Line(NoPrefix, ws[0], ws[1..CMD_PARAMS_MAX + 1]))
  {
    SplitUnwords(ws, None);
    assert ws[1..] + Trail(None) == ws[1..];
    assert ws[1..][..CMD_PARAMS_MAX] == ws[1..CMD_PARAMS_MAX + 1];
  }

  /** `X` followed by sixteen `a` parameters overruns `argv` as written. */
  lemma SixteenParamsAsWritten()
    ensures var ws := ["X"] + seq(16, _ => "a");
      && SplitAsWritten(Unwords(ws, None)) == Undefined
      && Split(Unwords(ws, None)) == Some(Line(NoPrefix, "X", seq(15, _ => "a")))
  {
    var ws := ["X"] + seq(16, _ => "a");
    assert forall j | 0 <= j < |ws| :: ws[j] == (if j == 0 then "X" else "a");
    TooManyParamsAsWritten(ws);
    assert ws[1..CMD_PARAMS_MAX + 1] == seq(15, _ => "a");
  }

  /** As written, a prefix of '!' characters alone hands NULL to `strlen`; repaired, the line is refused. */
  lemma BangPrefixAsWritten(network: CString, bangs: CString, rest: CString)
    requires |bangs| > 0 && forall i | 0 <= i < |bangs| :: bangs[i] == '!'
    ensures ParseAsWritten(network, ":" + bangs + " " + rest) == Undefined
    ensures Parse(network, ":" + bangs + " " + rest) == None
  {
    var head := ":" + bangs;
    assert ' ' !in head;
    assert head[0] == ':' && head[1..] == bangs;
    TokWord(head, ' ', rest, SPACE);
    assert ":" + bangs + " " + rest == head + [' '] + rest;
    BangOnlyPrefixAsWritten(bangs);
  }

  // ---------------------------------------------------------------------
  // Lines the parser refuses, and the commands it knows

  /** An empty line, or one of spaces alone, has no command. */
  lemma BlankLineFails(network: CString, line: CString)
    requires forall i | 0 <= i < |line| :: line[i] == ' '
    ensures ParseAsWritten(network, line) == Failed
    ensures Parse(network, line) == None
  {
    TokSpec(line, SPACE);
  }

  /** A bare ':' where the prefix should be is refused. */
  lemma BareColonFails(network: CString, rest: CString)
    ensures ParseAsWritten(network, ":") == Failed && Parse(network, ":") == None
    ensures ParseAsWritten(network, ": " + rest) == Failed && Parse(network, ": " + rest) == None
  {
    TokWord(":", ' ', rest, SPACE);
    assert ": " + rest == ":" + [' '] + rest;
  }

  /** A prefix with no command after it is refused. */
  lemma PrefixWithoutCommandFails(network: CString, pre: CString)
    requires |pre| > 0 && ' ' !in pre && PrefixAsWritten(pre).Parsed?
    ensures ParseAsWritten(network, ":" + pre) == Failed
    ensures Parse(network, ":" + pre) == None
  {
    var head := ":" + pre;
    assert ' ' !in head;
    assert head[1..] == pre;
    TokWord(head, ' ', [], SPACE);
  }

  /** A PING from a server, with its name as the trailing parameter, parses with that name. */
  lemma PingParses(network: CString, server: CString)
    ensures '\0' !in "PING :" + server
    ensures Parse(network, "PING :" + server) == Some(Message(network, None, None, None, "PING", PingMsg(server, None)))
  {
    assert Unwords(["PING"], Some(server)) == "PING :" + server;
    SplitUnwords(["PING"], Some(server));
    assert SameIgnoringCase("PING", "PING");
  }

  /** The PONG the bot would answer with parses as an UNKNOWN command: the parser knows only PING and PRIVMSG. */
  lemma PongIsUnknown(network: CString, server: CString)
    requires Middle(server) && |server| + 7 <= SIZE_MAX
    ensures '\0' !in Body(Pong(server, None))
    ensures Parse(network, Body(Pong(server, None))) == Some(Message(network, None, None, None, "PONG", Unknown))
  {
    PongRoundTrip(server, None);
    Fits("PONG " + server);
    DispatchPong(network, server);
  }

  /** A split PONG is neither of the commands the parser knows. */
  lemma DispatchPong(network: string, server: string)
    ensures Dispatch(network, Line(NoPrefix, "PONG", [server])) == Some(Message(network, None, None, None, "PONG", Unknown))
  {
    assert !SameIgnoringCase("PONG", "PING") by { assert Lower("PONG"[1]) != Lower("PING"[1]); }
    assert !SameIgnoringCase("PONG", "PRIVMSG");
    assert !SameIgnoringCase("PONG", "JOIN") by { assert Lower("PONG"[0]) != Lower("JOIN"[0]); }
    assert !SameIgnoringCase("PONG", "PART") by { assert Lower("PONG"[1]) != Lower("PART"[1]); }
    assert !SameIgnoringCase("PONG", "QUIT") by { assert Lower("PONG"[0]) != Lower("QUIT"[0]); }
  }

  /** Commands are matched without regard to ASCII case. */
  lemma DispatchIgnoresCase(network: string, l: Line, cmd: string)
    requires SameIgnoringCase(l.cmd, cmd)
    ensures Dispatch(network, l.(cmd := cmd)).Some? == Dispatch(network, l).Some?
    ensures Dispatch(network, l).Some? ==> Dispatch(network, l.(cmd := cmd)).value.payload == Dispatch(network, l).value.payload
  {
    forall k: string | |k| == |cmd| && SameIgnoringCase(l.cmd, k)
      ensures SameIgnoringCase(cmd, k)
    {
    }
  }
}
