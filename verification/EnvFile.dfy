// The .env file: how the devnet name is written to it and what the next process
// reads back.
module EnvFile {
  import opened Seqs
  import opened Strings
  import opened Wrappers

  // ---- The DEVNET_NAME line of a file ----

  const KEY := "DEVNET_NAME="

  // What the results on a keyed line need of its key.
  predicate IsKey(key: string) {
    key != "" && !IsSpecial(key[0]) && '$' !in key && OneLine(key)
  }

  lemma KeyIsKey()
    ensures IsKey(KEY) && '#' !in KEY
  {
  }

  predicate IsTerminator(c: char) {
    c == '\n' || c == '\r' || c == '\U{2028}' || c == '\U{2029}'
  }

  predicate OneLine(s: string) {
    forall c :: c in s ==> !IsTerminator(c)
  }

  // What a line is followed by.
  predicate IsTail(s: string) {
    s == "" || IsTerminator(s[0])
  }

  // The first line of a text, without its terminator.
  function FirstLine(s: string): (r: string)
    ensures r <= s && OneLine(r) && IsTail(s[|r|..])
  {
    if s == "" || IsTerminator(s[0]) then "" else [s[0]] + FirstLine(s[1..])
  }

  datatype Hit = Hit(before: string, line: string, after: string) {
    function Text(): string {
      before + line + after
    }

    function With(newLine: string): Hit {
      Hit(before, newLine, after)
    }
  }

  // The first line that starts with a key, and the text around it.
  function Find(key: string, s: string): Option<Hit>
    decreases |s|
  {
    var line := FirstLine(s);
    if key <= s then Some(Hit("", line, s[|line|..]))
    else if |line| == |s| then None
    else Shift(s[..|line| + 1], Find(key, s[|line| + 1..]))
  }

  function Shift(prefix: string, h: Option<Hit>): Option<Hit> {
    match h
    case None => None
    case Some(hit) => Some(Hit(prefix + hit.before, hit.line, hit.after))
  }

  // A position where ^ matches.
  predicate LineStart(s: string, i: nat) {
    i <= |s| && (i == 0 || IsTerminator(s[i - 1]))
  }

  predicate KeyAt(key: string, s: string, i: nat) {
    LineStart(s, i) && key <= s[i..]
  }

  // The leftmost match of the pattern, in the words of the pattern.
  ghost predicate IsHit(key: string, s: string, h: Hit) {
    && s == h.Text()
    && key <= h.line && OneLine(h.line) && IsTail(h.after)
    && LineStart(s, |h.before|)
    && forall i: nat :: i < |h.before| ==> !KeyAt(key, s, i)
  }

  lemma {:induction false} FirstLineExact(line: string, after: string)
    requires OneLine(line) && IsTail(after)
    ensures FirstLine(line + after) == line
  {
    if line == "" {
      assert line + after == after;
    } else {
      assert (line + after)[0] == line[0] && (line + after)[1..] == line[1..] + after;
      FirstLineExact(line[1..], after);
    }
  }

  lemma {:induction false} KeyReaches(k: string, s: string)
    requires k <= s && OneLine(k)
    ensures k <= FirstLine(s)
  {
    if k == "" {
    } else {
      KeyReaches(k[1..], s[1..]);
    }
  }

  // Find at a line that starts with the key.
  lemma FindHere(key: string, line: string, after: string)
    requires key <= line && OneLine(line) && IsTail(after)
    ensures Find(key, line + after) == Some(Hit("", line, after))
  {
    FirstLineExact(line, after);
    assert key <= line + after;
  }

  // Find goes past a line that does not start with the key.
  lemma FindSkips(key: string, line: string, term: char, rest: string)
    requires OneLine(key) && !(key <= line) && OneLine(line) && IsTerminator(term)
    ensures Find(key, line + [term] + rest) == Shift(line + [term], Find(key, rest))
  {
    var s := line + [term] + rest;
    assert s == line + ([term] + rest);
    FirstLineExact(line, [term] + rest);
    assert s[..|line| + 1] == line + [term] && s[|line| + 1..] == rest;
    if key <= s { KeyReaches(key, s); }
  }

  // The three ways Find can go.
  datatype Cut = Here(line: string, tail: string) | Past(line: string, term: char, rest: string) | Nowhere

  ghost predicate CutsTo(key: string, s: string, c: Cut) {
    match c
    case Here(line, tail) => key <= line && OneLine(line) && IsTail(tail) && s == line + tail
    case Past(line, term, rest) => !(key <= line) && OneLine(line) && IsTerminator(term) && s == line + [term] + rest
    case Nowhere => !(key <= s) && OneLine(s)
  }

  lemma CutOf(key: string, s: string) returns (c: Cut)
    requires OneLine(key)
    ensures CutsTo(key, s, c)
    ensures c.Nowhere? ==> Find(key, s) == None
  {
    var line := FirstLine(s);
    if key <= s { KeyReaches(key, s); }
    if key <= line {
      c := Here(line, s[|line|..]);
    } else if |line| == |s| {
      c := Nowhere;
    } else {
      c := Past(line, s[|line|], s[|line| + 1..]);
    }
  }

  lemma Rejoin(prefix: string, h: Hit)
    ensures Hit(prefix + h.before, h.line, h.after).Text() == prefix + h.Text()
  {
    assert prefix + h.before + h.line + h.after == prefix + (h.before + h.line + h.after);
  }

  lemma OnTop(line: string, tail: string)
    ensures Hit("", line, tail).Text() == line + tail
  {
    assert "" + line == line;
  }

  lemma ReplacedHere(key: string, first: string, tail: string, line: string)
    requires key <= first && OneLine(first) && IsTail(tail) && key <= line && OneLine(line)
    ensures var h := Hit("", first, tail);
      && Find(key, first + tail) == Some(h) && first + tail == h.Text()
      && Find(key, h.With(line).Text()) == Some(h.With(line))
  {
    FindHere(key, first, tail);
    FindHere(key, line, tail);
    OnTop(first, tail);
    OnTop(line, tail);
  }

  lemma ReplacedPast(key: string, first: string, term: char, h: Hit, line: string)
    requires OneLine(key) && !(key <= first) && OneLine(first) && IsTerminator(term)
    requires Find(key, h.With(line).Text()) == Some(h.With(line))
    ensures var moved := Hit(first + [term] + h.before, h.line, h.after);
      && first + [term] + h.Text() == moved.Text()
      && Find(key, moved.With(line).Text()) == Some(moved.With(line))
  {
    FindSkips(key, first, term, h.With(line).Text());
    Rejoin(first + [term], h);
    Rejoin(first + [term], h.With(line));
  }

  // What precedes and follows the hit does not depend on the hit line itself.
  lemma {:induction false} FindReplaced(key: string, s: string, line: string)
    requires OneLine(key) && Find(key, s).Some?
    requires key <= line && OneLine(line)
    ensures var h := Find(key, s).value;
      s == h.Text() && Find(key, h.With(line).Text()) == Some(h.With(line))
    decreases |s|
  {
    var c := CutOf(key, s);
    match c {
      case Here(first, tail) =>
        ReplacedHere(key, first, tail, line);
      case Past(first, term, rest) =>
        FindSkips(key, first, term, rest);
        FindReplaced(key, rest, line);
        ReplacedPast(key, first, term, Find(key, rest).value, line);
      case Nowhere =>
    }
  }

  // ^ never matches inside a line.
  lemma NoStartInside(line: string, rest: string, i: nat)
    requires OneLine(line) && 0 < i <= |line|
    ensures !LineStart(line + rest, i)
  {
    assert (line + rest)[i - 1] == line[i - 1];
  }

  lemma ShiftedStart(key: string, prefix: string, rest: string, i: nat)
    requires prefix != "" && IsTerminator(prefix[|prefix| - 1]) && |prefix| <= i <= |prefix + rest|
    ensures KeyAt(key, prefix + rest, i) <==> KeyAt(key, rest, i - |prefix|)
  {
    assert (prefix + rest)[i..] == rest[i - |prefix|..];
    assert (prefix + rest)[i - 1] == if i == |prefix| then prefix[i - 1] else rest[i - 1 - |prefix|];
  }

  // No line of a skipped prefix starts with the key.
  lemma SkippedStart(key: string, line: string, term: char, rest: string, i: nat)
    requires OneLine(key) && !(key <= line) && OneLine(line) && IsTerminator(term) && i <= |line|
    ensures !KeyAt(key, line + [term] + rest, i)
  {
    var s := line + [term] + rest;
    assert s == line + ([term] + rest);
    if i > 0 {
      NoStartInside(line, [term] + rest, i);
    } else if key <= s {
      FirstLineExact(line, [term] + rest);
      KeyReaches(key, s);
      assert false;
    }
  }

  // Find is the leftmost match, and fails only when there is none.
  lemma {:induction false} FindIsLeftmost(key: string, s: string)
    requires OneLine(key) && key != ""
    ensures match Find(key, s)
      case Some(h) => IsHit(key, s, h)
      case None => forall i: nat :: !KeyAt(key, s, i)
    decreases |s|
  {
    var c := CutOf(key, s);
    match c {
      case Here(line, tail) =>
        FindHere(key, line, tail);
        assert s == "" + line + tail;
      case Past(line, term, rest) =>
        FindIsLeftmost(key, rest);
        FindSkips(key, line, term, rest);
        PastLine(key, line, term, rest);
      case Nowhere =>
        forall i: nat ensures !KeyAt(key, s, i) {
          if 0 < i <= |s| { NoStartInside(s, "", i); assert s + "" == s; }
        }
    }
  }

  lemma PastLine(key: string, line: string, term: char, rest: string)
    requires OneLine(key) && !(key <= line) && OneLine(line) && IsTerminator(term)
    ensures var s := line + [term] + rest;
      && (forall i: nat :: KeyAt(key, s, i) ==> |line| < i && KeyAt(key, rest, i - |line| - 1))
      && (forall h :: IsHit(key, rest, h) ==> IsHit(key, s, Hit(line + [term] + h.before, h.line, h.after)))
  {
    var prefix := line + [term];
    var s := prefix + rest;
    forall i: nat | KeyAt(key, s, i) ensures |line| < i && KeyAt(key, rest, i - |line| - 1) {
      if i <= |line| {
        SkippedStart(key, line, term, rest, i);
      } else {
        ShiftedStart(key, prefix, rest, i);
      }
    }
    forall h | IsHit(key, rest, h) ensures IsHit(key, s, Hit(prefix + h.before, h.line, h.after)) {
      Rejoin(prefix, h);
      var n := |prefix| + |h.before|;
      assert h.before == "" ==> s[n - 1] == term;
      assert h.before != "" ==> s[n - 1] == rest[|h.before| - 1];
    }
  }

  // ---- Replacement templates ----

  predicate IsSpecial(c: char) {
    c == '$' || c == '&' || c == '`' || c == '\''
  }

  predicate StartsPattern(t: string) {
    |t| >= 2 && t[0] == '$' && IsSpecial(t[1])
  }

  predicate HasPattern(t: string) {
    exists i :: 0 <= i < |t| && StartsPattern(t[i..])
  }

  // $$, $&, $` and $'
  function Pattern(c: char, h: Hit): string
    requires IsSpecial(c)
  {
    if c == '$' then "$" else if c == '&' then h.line else if c == '`' then h.before else h.after
  }

  // String.replace expands the patterns of the replacement.
  function Expand(template: string, h: Hit): string {
    if template == "" then ""
    else if StartsPattern(template) then Pattern(template[1], h) + Expand(template[2..], h)
    else [template[0]] + Expand(template[1..], h)
  }

  lemma PatternInTail(t: string)
    requires t != "" && !StartsPattern(t)
    ensures HasPattern(t[1..]) <==> HasPattern(t)
  {
    if HasPattern(t) {
      var i :| 0 <= i < |t| && StartsPattern(t[i..]);
      assert i != 0 by { assert t[0..] == t; }
      assert t[1..][i - 1..] == t[i..];
    }
    if HasPattern(t[1..]) {
      var i :| 0 <= i < |t[1..]| && StartsPattern(t[1..][i..]);
      assert t[i + 1..] == t[1..][i..];
    }
  }

  lemma {:induction false} ExpandPlain(template: string, h: Hit)
    requires !HasPattern(template)
    ensures Expand(template, h) == template
  {
    if template == "" {
    } else {
      assert template[0..] == template;
      PatternInTail(template);
      ExpandPlain(template[1..], h);
    }
  }

  lemma {:induction false} ExpandConcat(plain: string, name: string, h: Hit)
    requires '$' !in plain
    ensures Expand(plain + name, h) == plain + Expand(name, h)
  {
    if plain == "" {
      assert plain + name == name;
    } else {
      assert (plain + name)[0] == plain[0] && (plain + name)[1..] == plain[1..] + name;
      ExpandConcat(plain[1..], name, h);
    }
  }

  // A hit whose neighbours cannot stand inside a line.
  predicate IsBounded(h: Hit) {
    && (h.before == "" || !OneLine(h.before))
    && IsTail(h.after)
    && h.line != "" && !IsSpecial(h.line[0])
  }

  lemma NotOneLine(mid: string, rest: string, whole: string)
    requires !OneLine(mid) && OneLine(whole)
    ensures mid + rest != whole
  {
    var c :| c in mid && IsTerminator(c);
    assert c in mid + rest;
  }

  lemma HeadDiffers(p: string, rest: string, whole: string)
    requires p != "" && whole != "" && p[0] != whole[0]
    ensures p + rest != whole
  {
    assert (p + rest)[0] == p[0];
  }

  lemma DropPrefix(p: string, rest: string, whole: string)
    requires |p| <= |whole| && rest != whole[|p|..]
    ensures p + rest != whole
  {
    assert (p + rest)[|p|..] == rest;
  }

  lemma Regroup(due: string, t: string, n: nat, m: nat)
    requires n <= |due| && m <= |t|
    ensures (due + t)[n..] == due[n..] + t[..m] + t[m..]
  {
  }

  // A pattern that can stand inside a line is shorter than its two characters.
  lemma PatternShrinks(c: char, h: Hit)
    requires IsSpecial(c) && c != '&' && IsBounded(h) && OneLine(Pattern(c, h))
    ensures |Pattern(c, h)| <= 1
  {
    if c == '\'' && h.after != "" { assert h.after[0] in h.after; }
  }

  // Once the expansion lags behind its template it never catches up: only $&
  // makes up length, and it begins with a character that is not due.
  lemma {:induction false} LagStays(due: string, t: string, h: Hit)
    requires IsBounded(h) && OneLine(due) && OneLine(t)
    requires due != "" && h.line[0] !in due
    ensures Expand(t, h) != due + t
    decreases |t|, 1
  {
    if t == "" {
      assert due + t == due;
    } else if StartsPattern(t) {
      LagAtPattern(due, t, h);
    } else if t[0] == due[0] {
      LagStays(due[1..] + t[..1], t[1..], h);
      Regroup(due, t, 1, 1);
      DropPrefix([t[0]], Expand(t[1..], h), due + t);
    } else {
      HeadDiffers([t[0]], Expand(t[1..], h), due + t);
    }
  }

  lemma {:induction false} LagAtPattern(due: string, t: string, h: Hit)
    requires IsBounded(h) && OneLine(due) && OneLine(t)
    requires due != "" && h.line[0] !in due && StartsPattern(t)
    ensures Expand(t, h) != due + t
    decreases |t|, 0
  {
    var p, rest := Pattern(t[1], h), Expand(t[2..], h);
    if !OneLine(p) {
      NotOneLine(p, rest, due + t);
    } else if t[1] == '&' {
      HeadDiffers(p, rest, due + t);
    } else {
      PatternShrinks(t[1], h);
      LagStays(due[|p|..] + t[..2], t[2..], h);
      Regroup(due, t, |p|, 2);
      DropPrefix(p, rest, due + t);
    }
  }

  lemma LeadingPatternChanges(t: string, h: Hit)
    requires IsBounded(h) && OneLine(t) && StartsPattern(t)
    ensures Expand(t, h) != t
  {
    var p, rest := Pattern(t[1], h), Expand(t[2..], h);
    if !OneLine(p) {
      NotOneLine(p, rest, t);
    } else if t[1] == '&' {
      HeadDiffers(p, rest, t);
    } else {
      PatternShrinks(t[1], h);
      LagStays(t[|p|..2], t[2..], h);
      assert t[|p|..] == t[|p|..2] + t[2..];
      DropPrefix(p, rest, t);
    }
  }

  lemma {:induction false} PatternChanges(t: string, h: Hit)
    requires IsBounded(h) && OneLine(t) && HasPattern(t)
    ensures Expand(t, h) != t
    decreases |t|
  {
    if StartsPattern(t) {
      LeadingPatternChanges(t, h);
    } else {
      PatternInTail(t);
      PatternChanges(t[1..], h);
      assert ([t[0]] + Expand(t[1..], h))[1..] == Expand(t[1..], h);
    }
  }

  // ---- Persisting ----

  // The content of .env after persistDevnetName; None is an unreadable file.
  function Persisted(key: string, file: Option<string>, name: string): string {
    match file
    case None => key + name + "\n"
    case Some(content) =>
      match Find(key, content)
      case Some(h) => h.With(Expand(key + name, h)).Text()
      case None => key + name + (if content == "" then "" else "\n") + content
  }

  predicate IsPlainName(name: string) {
    OneLine(name) && !HasPattern(name)
  }

  // ---- Main results on the file ----

  // Where the name's line goes: over the first DEVNET_NAME line, or on top.
  function Slot(key: string, file: Option<string>): Hit {
    match file
    case None => Hit("", "", "\n")
    case Some(content) =>
      match Find(key, content)
      case Some(h) => h
      case None => Hit("", "", (if content == "" then "" else "\n") + content)
  }

  lemma SlotIsBounded(key: string, content: string)
    requires IsKey(key) && Find(key, content).Some?
    ensures IsBounded(Find(key, content).value)
  {
    FindIsLeftmost(key, content);
    var h := Find(key, content).value;
    assert h.before != "" ==> content[|h.before| - 1] == h.before[|h.before| - 1];
    assert h.line[0] == key[0];
  }

  // A line is replaced by a name that carries a replacement pattern.
  predicate ReplacesByPattern(key: string, file: Option<string>, name: string) {
    file.Some? && Find(key, file.value).Some? && HasPattern(name)
  }

  lemma PersistedPlain(key: string, file: Option<string>, name: string)
    requires IsKey(key) && !ReplacesByPattern(key, file, name)
    ensures Persisted(key, file, name) == Slot(key, file).With(key + name).Text()
  {
    var slot := Slot(key, file);
    if file.Some? && Find(key, file.value).Some? {
      ExpandConcat(key, name, slot);
      ExpandPlain(name, slot);
    } else {
      OnTop(key + name, slot.after);
      if file.Some? { PersistedOnTop(key, file.value, name); }
    }
  }

  // For any one-line name: the file becomes exactly its old text with the line in
  // its slot, if and only if the file had no DEVNET_NAME line or the name carries
  // no replacement pattern.
  lemma PersistedContent(key: string, file: Option<string>, name: string)
    requires IsKey(key) && OneLine(name)
    ensures Persisted(key, file, name) == Slot(key, file).With(key + name).Text() <==>
            !ReplacesByPattern(key, file, name)
  {
    if ReplacesByPattern(key, file, name) {
      var slot := Slot(key, file);
      ExpandConcat(key, name, slot);
      SlotIsBounded(key, file.value);
      PatternChanges(name, slot);
      assert (key + Expand(name, slot))[|key|..] == Expand(name, slot);
      TextTellsLine(slot, key + Expand(name, slot), key + name);
    } else {
      PersistedPlain(key, file, name);
    }
  }

  // A file without the line gets it on top, and a missing file is just the line.
  lemma NewLineOnTop(key: string, content: string, name: string)
    ensures Persisted(key, None, name) == key + name + "\n"
    ensures Find(key, content) == None && content == "" ==> Persisted(key, Some(content), name) == key + name
    ensures Find(key, content) == None && content != "" ==>
      Persisted(key, Some(content), name) == key + name + "\n" + content
  {
    assert key + name + "" + "" == key + name;
  }

  lemma TextTellsLine(h: Hit, a: string, b: string)
    requires a != b
    ensures h.With(a).Text() != h.With(b).Text()
  {
    if |a| == |b| {
      var i :| 0 <= i < |a| && a[i] != b[i];
      assert h.With(a).Text()[|h.before| + i] == a[i];
      assert h.With(b).Text()[|h.before| + i] == b[i];
    }
  }

  lemma PersistedOnTop(key: string, content: string, name: string)
    requires Find(key, content) == None
    ensures Persisted(key, Some(content), name) == key + name + Slot(key, Some(content)).after
  {
    var line := key + name;
    Associative(line, if content == "" then "" else "\n", content);
  }

  // The persisted file has the new line as its first DEVNET_NAME line.
  lemma PersistedHit(key: string, file: Option<string>, name: string)
    requires IsKey(key) && IsPlainName(name)
    ensures Find(key, Persisted(key, file, name)) == Some(Slot(key, file).With(key + name))
  {
    PersistedContent(key, file, name);
    var slot, line := Slot(key, file), key + name;
    assert key <= line && OneLine(line);
    if file.Some? && Find(key, file.value).Some? {
      FindReplaced(key, file.value, line);
    } else {
      OnTop(line, slot.after);
      FindHere(key, line, slot.after);
    }
  }

  // Persisting a then b is persisting b.
  lemma LastPersistWins(key: string, file: Option<string>, a: string, b: string)
    requires IsKey(key) && IsPlainName(a) && IsPlainName(b)
    ensures Persisted(key, Some(Persisted(key, file, a)), b) == Persisted(key, file, b)
  {
    PersistedHit(key, file, a);
    PersistedContent(key, file, b);
    PersistedContent(key, Some(Persisted(key, file, a)), b);
  }

  // ---- Start-up: reading the file back ----

  // What the loader reads off one line, if the line assigns the variable.
  type LineReader = string -> Option<string>

  function OrElse(a: Option<string>, b: Option<string>): Option<string> {
    if a.Some? then a else b
  }

  // The value a text assigns: the last assigning line wins.
  function Loaded(read: LineReader, s: string): Option<string>
    decreases |s|
  {
    var line := FirstLine(s);
    if |line| == |s| then read(line) else OrElse(Loaded(read, s[|line| + 1..]), read(line))
  }

  ghost predicate SkipsEmpty(read: LineReader) {
    read("") == None
  }

  lemma LoadedFirst(read: LineReader, line: string, term: char, rest: string)
    requires OneLine(line) && IsTerminator(term)
    ensures Loaded(read, line + [term] + rest) == OrElse(Loaded(read, rest), read(line))
  {
    var s := line + [term] + rest;
    assert s == line + ([term] + rest);
    FirstLineExact(line, [term] + rest);
    assert s[|line| + 1..] == rest;
  }

  lemma LoadedOneLine(read: LineReader, line: string)
    requires OneLine(line)
    ensures Loaded(read, line) == read(line)
  {
    FirstLineExact(line, "");
    assert line + "" == line;
  }

  // A text that is a line, or a first line and a rest.
  lemma CutLine(s: string) returns (line: string, term: char, rest: string)
    ensures OneLine(line)
    ensures s == line || (IsTerminator(term) && s == line + [term] + rest && |rest| < |s|)
  {
    line := FirstLine(s);
    if |line| == |s| {
      term, rest := '\n', "";
    } else {
      term, rest := s[|line|], s[|line| + 1..];
    }
  }

  lemma LoadedTail(read: LineReader, after: string)
    requires IsTail(after) && after != ""
    ensures SkipsEmpty(read) ==> Loaded(read, after) == Loaded(read, after[1..])
  {
    assert after == "" + [after[0]] + after[1..];
    LoadedFirst(read, "", after[0], after[1..]);
  }

  lemma AppendToRest(line: string, term: char, rest: string, after: string)
    ensures line + [term] + rest + after == line + [term] + (rest + after)
  {
  }

  // Lines that follow a text override it.
  lemma {:induction false} LoadedBefore(read: LineReader, s: string, after: string)
    requires SkipsEmpty(read) && IsTail(after)
    ensures Loaded(read, s + after) == OrElse(Loaded(read, after), Loaded(read, s))
    decreases |s|
  {
    var line, term, rest := CutLine(s);
    if s == line {
      LoadedOneLine(read, s);
      if after == "" {
        assert s + after == s;
        LoadedOneLine(read, "");
      } else {
        LoadedTail(read, after);
        assert s + after == s + [after[0]] + after[1..];
        LoadedFirst(read, s, after[0], after[1..]);
      }
    } else {
      LoadedBefore(read, rest, after);
      AppendToRest(line, term, rest, after);
      LoadedFirst(read, line, term, rest + after);
      LoadedFirst(read, line, term, rest);
    }
  }

  // And so does whatever follows a text that ends a line.
  lemma {:induction false} LoadedAfter(read: LineReader, before: string, s: string)
    requires SkipsEmpty(read) && (before == "" || IsTerminator(before[|before| - 1]))
    ensures Loaded(read, before + s) == OrElse(Loaded(read, s), Loaded(read, before))
    decreases |before|
  {
    if before == "" {
      assert before + s == s;
      LoadedOneLine(read, "");
    } else {
      var line, term, rest := CutLine(before);
      assert rest != "" ==> rest[|rest| - 1] == before[|before| - 1];
      LoadedAfter(read, rest, s);
      AppendToRest(line, term, rest, s);
      LoadedFirst(read, line, term, rest + s);
      LoadedFirst(read, line, term, rest);
    }
  }

  // A slot in a file, between whole lines.
  ghost predicate IsSlot(h: Hit) {
    IsTail(h.after) && (h.before == "" || IsTerminator(h.before[|h.before| - 1]))
  }

  lemma SlotIsSlot(key: string, file: Option<string>)
    requires IsKey(key)
    ensures IsSlot(Slot(key, file))
  {
    if file.Some? {
      FindIsLeftmost(key, file.value);
      var h := Slot(key, file);
      assert Find(key, file.value).Some? && h.before != "" ==> file.value[|h.before| - 1] == h.before[|h.before| - 1];
    }
  }

  lemma LoadedSlot(read: LineReader, h: Hit, text: string)
    requires SkipsEmpty(read) && IsSlot(h)
    ensures Loaded(read, h.With(text).Text()) ==
            OrElse(Loaded(read, h.after), OrElse(Loaded(read, text), Loaded(read, h.before)))
  {
    assert h.before + text + h.after == h.before + (text + h.after);
    LoadedAfter(read, h.before, text + h.after);
    LoadedBefore(read, text, h.after);
  }

  lemma LoadedShort(read: LineReader, s: string, k: nat)
    requires forall line :: read(line).Some? ==> |read(line).value| + k <= |line|
    ensures Loaded(read, s).Some? ==> |Loaded(read, s).value| + k <= |s|
    ensures Loaded(read, s).Some? && !OneLine(s) ==> |Loaded(read, s).value| + k < |s|
    decreases |s|
  {
    var line, term, rest := CutLine(s);
    if s == line {
      LoadedOneLine(read, s);
    } else {
      LoadedShort(read, rest, k);
      LoadedFirst(read, line, term, rest);
    }
  }

  // A text whose first line is assigning assigns something.
  lemma LoadedSome(read: LineReader, key: string, s: string)
    requires OneLine(key) && key <= s
    requires forall line :: key <= line ==> read(line).Some?
    ensures Loaded(read, s).Some?
  {
    KeyReaches(key, s);
  }

  // ---- How the loader reads one line ----

  const VARIABLE := "DEVNET_NAME"

  predicate IsQuote(c: char) {
    c == '\'' || c == '"' || c == '`'
  }

  function BeforeHash(s: string): (r: string)
    ensures r <= s && '#' !in r
    ensures '#' !in s ==> r == s
  {
    if s == "" || s[0] == '#' then "" else [s[0]] + BeforeHash(s[1..])
  }

  // The position of the first unescaped quote from i on; |s| when there is none.
  function ClosingQuote(s: string, quote: char, i: nat): (r: nat)
    requires i <= |s|
    ensures i <= r <= |s|
    ensures r < |s| ==> s[r] == quote
    decreases |s| - i
  {
    if i == |s| || s[i] == quote then i
    else if s[i] == '\\' && i + 1 < |s| then ClosingQuote(s, quote, i + 2)
    else ClosingQuote(s, quote, i + 1)
  }

  predicate CommentOrEnd(s: string) {
    TrimStart(s) == "" || TrimStart(s)[0] == '#'
  }

  // A quoted text before the end or a comment; anything else ends at a hash sign.
  function RawValue(s: string): (r: string)
    ensures r <= s
  {
    var j := if s != "" && IsQuote(s[0]) then ClosingQuote(s, s[0], 1) else |s|;
    if j < |s| && CommentOrEnd(s[j + 1..]) then s[..j + 1] else BeforeHash(s)
  }

  predicate IsQuoted(s: string) {
    |s| >= 2 && IsQuote(s[0]) && s[|s| - 1] == s[0]
  }

  predicate StartsEscape(s: string) {
    |s| >= 2 && s[0] == '\\' && (s[1] == 'n' || s[1] == 'r')
  }

  // \n and \r stand for line breaks.
  function Unescape(s: string): (r: string)
    ensures |r| <= |s|
  {
    if s == "" then ""
    else if StartsEscape(s) then [if s[1] == 'n' then '\n' else '\r'] + Unescape(s[2..])
    else [s[0]] + Unescape(s[1..])
  }

  predicate HasEscape(s: string) {
    s != "" && (StartsEscape(s) || HasEscape(s[1..]))
  }

  function Unquote(v: string): (r: string)
    ensures |r| <= |v|
  {
    var u := if IsQuoted(v) then v[1..|v| - 1] else v;
    if v != "" && v[0] == '"' then Unescape(u) else u
  }

  function DotenvValue(raw: string): string {
    Unquote(Trim(RawValue(Trim(raw))))
  }

  // "=" or ": " follows the variable.
  function Assigned(value: string -> string, u: string): Option<string> {
    var v := TrimStart(u);
    if v != "" && v[0] == '=' then Some(value(v[1..]))
    else if |u| >= 2 && u[0] == ':' && IsSpace(u[1]) then Some(value(u[1..]))
    else None
  }

  function SkipExport(t: string): (r: string)
    ensures |r| <= |t|
    ensures t != "" && t[0] != 'e' ==> r == t
  {
    if "export" <= t && |t| > 6 && IsSpace(t[6]) then TrimStart(t[6..]) else t
  }

  // Leading space and "export" are skipped.
  function VariableLine(value: string -> string, variable: string, line: string): Option<string> {
    var u := SkipExport(TrimStart(line));
    if variable <= u then Assigned(value, u[|variable|..]) else None
  }

  const DOTENV_LINE: LineReader := line => VariableLine(DotenvValue, VARIABLE, line)

  // Names the loader gives back as they are.
  predicate IsLoadable(name: string) {
    '#' !in name && !IsQuoted(name) && !(name != "" && name[0] == '"' && HasEscape(name))
  }

  ghost predicate Shrinks(value: string -> string) {
    forall s :: |value(s)| <= |s|
  }

  lemma ValueShrinks()
    ensures Shrinks(DotenvValue)
  {
    forall s ensures |DotenvValue(s)| <= |s| {
      TrimExact(s);
      TrimExact(RawValue(Trim(s)));
    }
  }

  lemma {:induction false} UnescapeExact(s: string)
    ensures Unescape(s) == s <==> !HasEscape(s)
    ensures HasEscape(s) ==> |Unescape(s)| < |s|
  {
    if s == "" {
    } else if StartsEscape(s) {
      assert |Unescape(s)| < |s|;
    } else {
      UnescapeExact(s[1..]);
      assert s == [s[0]] + s[1..];
    }
  }

  lemma UnquoteExact(v: string)
    requires '#' !in v
    ensures Unquote(v) == v <==> IsLoadable(v)
    ensures !IsLoadable(v) ==> |Unquote(v)| < |v|
  {
    if !IsQuoted(v) { UnescapeExact(v); }
  }

  lemma TrimmedRest(s: string, i: nat)
    requires IsTrimmed(s) && i < |s|
    ensures TrimStart(s[i..]) != ""
  {
    var rest := s[i..];
    assert rest[|rest| - 1] in rest && !IsSpace(rest[|rest| - 1]);
    if TrimStart(rest) == "" { TrimStartAll(rest); }
  }

  lemma RawValueExact(s: string)
    requires IsTrimmed(s)
    ensures '#' !in s ==> RawValue(s) == s
    ensures '#' in s && RawValue(s) == s ==> IsQuoted(s)
  {
    if s != "" && IsQuote(s[0]) {
      var j := ClosingQuote(s, s[0], 1);
      if j + 1 < |s| && CommentOrEnd(s[j + 1..]) {
        TrimmedRest(s, j + 1);
        assert TrimStart(s[j + 1..])[0] in s[j + 1..];
      } else if j + 1 == |s| {
        assert s[..j + 1] == s;
      }
    }
  }

  // Quoting, comments and escapes only ever shorten a value.
  lemma UnquoteShortens(v: string, name: string)
    requires |v| < |name| || (|v| == |name| && IsQuoted(v))
    ensures |Unquote(v)| < |name|
  {
  }

  // A trimmed name comes back through the loader if and only if it is loadable.
  lemma LoadsAsItself(name: string)
    requires name != "" && IsTrimmed(name)
    ensures Trim(DotenvValue(name)) == name <==> IsLoadable(name)
  {
    var v := RawValue(name);
    RawValueExact(name);
    TrimExact(name);
    TrimExact(v);
    TrimExact(DotenvValue(name));
    if '#' in name {
      assert |v| == |name| ==> v == name;
      UnquoteShortens(Trim(v), name);
    } else {
      UnquoteExact(name);
    }
  }

  lemma KeepsStart(s: string)
    requires s != "" && !IsSpace(s[0])
    ensures TrimStart(s) == s
  {
  }

  lemma AssignedExactly(value: string -> string, v: string)
    ensures Assigned(value, "=" + v) == Some(value(v))
  {
    KeepsStart("=" + v);
    assert ("=" + v)[1..] == v;
  }

  lemma VariableKeyLine(value: string -> string, variable: string, v: string)
    requires variable != "" && !IsSpace(variable[0]) && variable[0] != 'e'
    ensures VariableLine(value, variable, variable + "=" + v) == Some(value(v))
  {
    var line := variable + "=" + v;
    assert line[0] == variable[0];
    KeepsStart(line);
    assert line[|variable|..] == "=" + v;
    AssignedExactly(value, v);
  }

  lemma DotenvKeyLine(v: string)
    ensures DOTENV_LINE(KEY + v) == Some(DotenvValue(v))
  {
    assert KEY == VARIABLE + "=";
    VariableKeyLine(DotenvValue, VARIABLE, v);
  }

  lemma AssignedShort(value: string -> string, u: string)
    requires Shrinks(value)
    ensures Assigned(value, u).Some? ==> |Assigned(value, u).value| + 1 <= |u|
  {
  }

  lemma VariableLineShort(value: string -> string, variable: string, line: string)
    requires Shrinks(value)
    ensures VariableLine(value, variable, line).Some? ==>
      |VariableLine(value, variable, line).value| + |variable| + 1 <= |line|
  {
    var u := SkipExport(TrimStart(line));
    if variable <= u { AssignedShort(value, u[|variable|..]); }
  }

  lemma DotenvReads()
    ensures SkipsEmpty(DOTENV_LINE)
    ensures forall line :: KEY <= line ==> DOTENV_LINE(line).Some?
    ensures forall line :: DOTENV_LINE(line).Some? ==> |DOTENV_LINE(line).value| + |KEY| <= |line|
  {
    ValueShrinks();
    forall line | KEY <= line ensures DOTENV_LINE(line).Some? {
      assert line == KEY + line[|KEY|..];
      DotenvKeyLine(line[|KEY|..]);
    }
    forall line ensures DOTENV_LINE(line).Some? ==> |DOTENV_LINE(line).value| + |KEY| <= |line| {
      VariableLineShort(DotenvValue, VARIABLE, line);
    }
    VariableLineShort(DotenvValue, VARIABLE, "");
  }

  // ---- What the next process reads ----

  function Normalize(value: Option<string>): Option<string> {
    if value.Some? && Trim(value.value) != "" then Some(Trim(value.value)) else None
  }

  // dotenv.config without an earlier value: None is an unreadable file.
  function LoadedName(file: Option<string>): Option<string> {
    if file.Some? then Loaded(DOTENV_LINE, file.value) else None
  }

  // Nothing after the name's line names anything else, and, if that leaves it to
  // the line, the name is one loadable line.
  predicate SlotCarries(after: string, name: string) {
    match Loaded(DOTENV_LINE, after)
    case Some(v) => Trim(v) == name
    case None => OneLine(name) && IsLoadable(name)
  }

  lemma KeyedLoads(name: string)
    requires name != "" && IsTrimmed(name)
    ensures Loaded(DOTENV_LINE, KEY + name).Some?
    ensures Trim(Loaded(DOTENV_LINE, KEY + name).value) == name <==> OneLine(name) && IsLoadable(name)
  {
    KeyIsKey();
    DotenvReads();
    LoadedSome(DOTENV_LINE, KEY, KEY + name);
    if OneLine(name) {
      LoadedOneLine(DOTENV_LINE, KEY + name);
      DotenvKeyLine(name);
      LoadsAsItself(name);
    } else {
      LoadedShort(DOTENV_LINE, KEY + name, |KEY|);
      TrimExact(Loaded(DOTENV_LINE, KEY + name).value);
      assert forall c :: c in name ==> c in KEY + name;
    }
  }

  // What a persist puts in the slot.
  function WrittenText(key: string, file: Option<string>, name: string): string {
    if file.Some? && Find(key, file.value).Some? then Expand(key + name, Find(key, file.value).value) else key + name
  }

  lemma PersistedInSlot(key: string, file: Option<string>, name: string)
    ensures Persisted(key, file, name) == Slot(key, file).With(WrittenText(key, file, name)).Text()
  {
    if file.None? || Find(key, file.value).None? {
      OnTop(key + name, Slot(key, file).after);
      if file.Some? { PersistedOnTop(key, file.value, name); }
    }
  }

  lemma WrittenStarts(key: string, file: Option<string>, name: string)
    requires IsKey(key)
    ensures key <= WrittenText(key, file, name)
  {
    if file.Some? && Find(key, file.value).Some? {
      ExpandConcat(key, name, Find(key, file.value).value);
    }
  }

  // Persisting one name makes the next process read another, or the same: what
  // follows the slot assigns it, or assigns nothing and the written text does.
  predicate Arrives(file: Option<string>, written: string, name: string) {
    match Loaded(DOTENV_LINE, Slot(KEY, file).after)
    case Some(v) => Trim(v) == name
    case None => Trim(Loaded(DOTENV_LINE, WrittenText(KEY, file, written)).GetOr("")) == name
  }

  // Exactly when the next process reads a name, for any file and any two names.
  lemma PersistedLoads(file: Option<string>, written: string, name: string)
    requires name != ""
    ensures Normalize(LoadedName(Some(Persisted(KEY, file, written)))) == Some(name) <==> Arrives(file, written, name)
  {
    KeyIsKey();
    DotenvReads();
    PersistedInSlot(KEY, file, written);
    WrittenStarts(KEY, file, written);
    LoadedSome(DOTENV_LINE, KEY, WrittenText(KEY, file, written));
    SlotIsSlot(KEY, file);
    LoadedSlot(DOTENV_LINE, Slot(KEY, file), WrittenText(KEY, file, written));
  }

  lemma PlainWritten(key: string, file: Option<string>, name: string)
    requires IsKey(key) && !ReplacesByPattern(key, file, name)
    ensures WrittenText(key, file, name) == key + name
  {
    if file.Some? && Find(key, file.value).Some? {
      ExpandConcat(key, name, Find(key, file.value).value);
      ExpandPlain(name, Find(key, file.value).value);
    }
  }

  // Without a pattern replacement, the condition can be read off the name: a name
  // arrives as itself if and only if the slot carries it,
  lemma PlainArrives(file: Option<string>, name: string)
    requires !ReplacesByPattern(KEY, file, name) && name != "" && IsTrimmed(name)
    ensures Arrives(file, name, name) <==> SlotCarries(Slot(KEY, file).after, name)
  {
    KeyIsKey();
    PlainWritten(KEY, file, name);
    KeyedLoads(name);
  }

  // and a one-line name arrives as what the loader makes of it.
  lemma OneLineArrives(file: Option<string>, written: string, name: string)
    requires !ReplacesByPattern(KEY, file, written) && OneLine(written)
    ensures Arrives(file, written, name) <==>
      match Loaded(DOTENV_LINE, Slot(KEY, file).after)
      case Some(v) => Trim(v) == name
      case None => Trim(DotenvValue(written)) == name
  {
    KeyIsKey();
    PlainWritten(KEY, file, written);
    LoadedOneLine(DOTENV_LINE, KEY + written);
    DotenvKeyLine(written);
  }

  lemma ExpandsToLine(h: Hit)
    ensures Expand("$&", h) == h.line
  {
    assert StartsPattern("$&") && "$&"[2..] == "";
    assert h.line + "" == h.line;
  }

  // With a pattern it can fail: $& splices the old line into the new one.
  lemma DollarNameIsMangled(key: string, before: string)
    requires IsKey(key) && OneLine(before)
    ensures Persisted(key, Some(key + before), "$&") == key + (key + before)
  {
    var s := key + before;
    assert s + "" == s;
    FindHere(key, s, "");
    var h := Hit("", s, "");
    ExpandConcat(key, "$&", h);
    ExpandsToLine(h);
    OnTop(key + s, "");
    assert key + s + "" == key + s;
  }

  // ---- Pattern names can still arrive, by accident ----

  lemma ExpandPattern(c: char, rest: string, h: Hit)
    requires IsSpecial(c)
    ensures Expand(['$', c] + rest, h) == Pattern(c, h) + Expand(rest, h)
  {
    var t := ['$', c] + rest;
    assert t[0] == '$' && t[1] == c && t[2..] == rest;
  }

  // Each pattern, in any plain surroundings: $$ is a dollar sign, $& the line, $` what
  // precedes it and $' what follows it; other characters after a dollar sign stay.
  lemma PatternsExactly(plain: string, c: char, rest: string, h: Hit)
    requires '$' !in plain
    ensures Expand(plain + ['$', '$'] + rest, h) == plain + ['$'] + Expand(rest, h)
    ensures Expand(plain + ['$', '&'] + rest, h) == plain + h.line + Expand(rest, h)
    ensures Expand(plain + ['$', '`'] + rest, h) == plain + h.before + Expand(rest, h)
    ensures Expand(plain + ['$', '\''] + rest, h) == plain + h.after + Expand(rest, h)
    ensures c != '$' && c != '&' && c != '`' && c != '\'' ==>
      Expand(plain + ['$', c] + rest, h) == plain + ['$'] + Expand([c] + rest, h)
  {
    PatternAfter(plain, '$', rest, h);
    PatternAfter(plain, '&', rest, h);
    PatternAfter(plain, '`', rest, h);
    PatternAfter(plain, '\'', rest, h);
    if !IsSpecial(c) { DollarStays(plain, c, rest, h); }
  }

  lemma DollarStays(plain: string, c: char, rest: string, h: Hit)
    requires '$' !in plain && !IsSpecial(c)
    ensures Expand(plain + ['$', c] + rest, h) == plain + ['$'] + Expand([c] + rest, h)
  {
    var t := ['$', c] + rest;
    assert plain + ['$', c] + rest == plain + t;
    ExpandConcat(plain, t, h);
    assert t[0] == '$' && t[1] == c && t[1..] == [c] + rest;
    Associative(plain, ['$'], Expand([c] + rest, h));
  }

  lemma PatternAfter(plain: string, c: char, rest: string, h: Hit)
    requires '$' !in plain && IsSpecial(c)
    ensures Expand(plain + ['$', c] + rest, h) == plain + Pattern(c, h) + Expand(rest, h)
  {
    assert plain + ['$', c] + rest == plain + (['$', c] + rest);
    ExpandConcat(plain, ['$', c] + rest, h);
    ExpandPattern(c, rest, h);
    Associative(plain, Pattern(c, h), Expand(rest, h));
  }

  // A doubled dollar sign, a backquote and $& expand to a dollar sign, the
  // backquote and the line.
  lemma ExpandTrick(h: Hit)
    ensures Expand(['$', '$'] + (['`'] + ['$', '&']), h) == ['$'] + (['`'] + h.line)
  {
    ExpandPattern('$', ['`'] + ['$', '&'], h);
    assert ['$', '&'] + [] == ['$', '&'];
    ExpandPattern('&', [], h);
    assert h.line + [] == h.line;
    assert (['`'] + ['$', '&'])[0] == '`' && (['`'] + ['$', '&'])[1..] == ['$', '&'];
  }

  // The line and the name of the accident.
  function AccidentLine(key: string): string {
    key + (['$', '$'] + (['`'] + ['$', '&']))
  }

  function AccidentName(key: string): string {
    ['$', '`'] + AccidentLine(key)
  }

  // This name, put over this line, is mangled and yet ends up, whole, in a last
  // line of its own.
  lemma AccidentExpands(key: string, start: string)
    requires IsKey(key)
    ensures HasPattern(AccidentName(key))
    ensures Expand(key + AccidentName(key), Hit(start, AccidentLine(key), "")) ==
            key + (start + (key + AccidentName(key)))
  {
    var trick, h := ['$', '$'] + (['`'] + ['$', '&']), Hit(start, AccidentLine(key), "");
    assert AccidentName(key)[0..] == AccidentName(key) && StartsPattern(AccidentName(key));
    ExpandConcat(key, AccidentName(key), h);
    ExpandPattern('`', AccidentLine(key), h);
    ExpandConcat(key, trick, h);
    ExpandTrick(h);
    assert ['$'] + (['`'] + AccidentLine(key)) == AccidentName(key);
  }

  lemma AccidentNameLoads(key: string)
    requires IsKey(key) && '#' !in key
    ensures OneLine(AccidentName(key)) && IsLoadable(AccidentName(key)) && IsTrimmed(AccidentName(key))
    ensures key <= AccidentLine(key) && OneLine(AccidentLine(key))
  {
  }

  lemma FoundAfter(key: string, first: string, line: string)
    requires OneLine(key) && OneLine(first) && !(key <= first) && key <= line && OneLine(line)
    ensures Find(key, first + ['\n'] + line) == Some(Hit(first + ['\n'], line, ""))
  {
    assert line + "" == line;
    FindSkips(key, first, '\n', line);
    FindHere(key, line, "");
    assert first + ['\n'] + "" == first + ['\n'];
  }

  lemma PersistedOver(key: string, content: string, name: string, h: Hit, text: string)
    requires Find(key, content) == Some(h) && h.after == "" && Expand(key + name, h) == text
    ensures Persisted(key, Some(content), name) == h.before + text
  {
    assert h.before + text + "" == h.before + text;
  }

  lemma LoadsLast(before: string, name: string)
    requires before != "" && IsTerminator(before[|before| - 1])
    requires name != "" && OneLine(name) && IsLoadable(name) && IsTrimmed(name)
    ensures Normalize(LoadedName(Some(before + (KEY + name)))) == Some(name)
  {
    DotenvReads();
    LoadedAfter(DOTENV_LINE, before, KEY + name);
    KeyedLoads(name);
  }

  lemma AccidentFile(key: string, first: string)
    requires IsKey(key) && '#' !in key && OneLine(first) && !(key <= first)
    ensures var start := first + ['\n'];
      && ReplacesByPattern(key, Some(start + AccidentLine(key)), AccidentName(key))
      && Persisted(key, Some(start + AccidentLine(key)), AccidentName(key)) ==
         start + (key + start) + (key + AccidentName(key))
  {
    var start, line, name := first + ['\n'], AccidentLine(key), AccidentName(key);
    AccidentNameLoads(key);
    FoundAfter(key, first, line);
    AccidentExpands(key, start);
    PersistedOver(key, start + line, name, Hit(start, line, ""), key + (start + (key + name)));
    Associative(key, start, key + name);
    Associative(start, key + start, key + name);
  }

  // With a pattern, for once, the next process reads the name.
  lemma PatternNameByAccident(first: string)
    requires OneLine(first) && !(KEY <= first)
    ensures ReplacesByPattern(KEY, Some(first + ['\n'] + AccidentLine(KEY)), AccidentName(KEY))
    ensures var file := Some(Persisted(KEY, Some(first + ['\n'] + AccidentLine(KEY)), AccidentName(KEY)));
      Normalize(LoadedName(file)) == Some(AccidentName(KEY))
  {
    var before := first + ['\n'] + (KEY + (first + ['\n']));
    KeyIsKey();
    AccidentFile(KEY, first);
    AccidentNameLoads(KEY);
    assert before[|before| - 1] == '\n';
    LoadsLast(before, AccidentName(KEY));
  }
}
