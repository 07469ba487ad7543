/**
 The topic names of lib/libipc/ipc_topics.c: the validator against the grammar it enforces, the
 builder, and the category lookup. A topic is a string without its terminating NUL.
 */
module Topics {
  import opened Widths

  const MAX_TOPIC_LENGTH := 64
  const CATEGORY_BUFFER := 32
  const CATEGORY_COUNT: nat := 8
  const SYSTEM_TYPE_COUNT: nat := 4
  const LOGGING_TYPE_COUNT: nat := 4

  const VISION: nat := 0
  const VEHICLE: nat := 1
  const AI: nat := 2
  const SYSTEM: nat := 3
  const SAFETY: nat := 4
  const COMMUNICATION: nat := 5
  const DIAGNOSTICS: nat := 6
  const POWER: nat := 7

  const LOGGING: nat := 2

  datatype Validation = Valid | InvalidFormat | ReservedNamespace | LengthExceeded

  // ---------- the grammar ----------

  /** One segment of a topic: not empty, and free of slashes. */
  predicate Segment(s: string) { |s| > 0 && '/' !in s }

  function Join(a: string, b: string, c: string): string { a + "/" + b + "/" + c }

  ghost predicate IsJoin(t: string, a: string, b: string, c: string) {
    Segment(a) && Segment(b) && Segment(c) && t == Join(a, b, c)
  }

  ghost predicate ThreeSegments(t: string) {
    exists a, b, c :: IsJoin(t, a, b, c)
  }

  /** The first position of a slash, or the length. */
  function FirstSlash(s: string): (i: nat)
    ensures i <= |s| && (i < |s| ==> s[i] == '/')
    ensures forall j | 0 <= j < i :: s[j] != '/'
  {
    if |s| == 0 || s[0] == '/' then 0 else 1 + FirstSlash(s[1..])
  }

  function Slashes(s: string): nat {
    if |s| == 0 then 0 else (if s[0] == '/' then 1 else 0) + Slashes(s[1..])
  }

  /** What a validator that works by the grammar would answer. */
  ghost function Verdict(t: string): Validation {
    if |t| == 0 || |t| > MAX_TOPIC_LENGTH then LengthExceeded
    else if !ThreeSegments(t) then InvalidFormat
    else if t[..FirstSlash(t)] in {"kernel", "safety"} then ReservedNamespace
    else Valid
  }

  // ---------- slashes and segments ----------

  lemma {:induction false} SlashesConcat(a: string, b: string)
    ensures Slashes(a + b) == Slashes(a) + Slashes(b)
  {
    if |a| == 0 {
      assert a + b == b;
    } else {
      SlashesConcat(a[1..], b);
      assert (a + b)[1..] == a[1..] + b;
    }
  }

  lemma {:induction false} NoSlashes(s: string)
    ensures Slashes(s) == 0 <==> '/' !in s
  {
    if |s| > 0 {
      NoSlashes(s[1..]);
      assert s == [s[0]] + s[1..];
    }
  }

  lemma OneSlash()
    ensures Slashes("/") == 1
  {
    assert "/"[1..] == "";
  }

  lemma FirstSlashOf(a: string, rest: string)
    requires '/' !in a
    ensures FirstSlash(a + "/" + rest) == |a|
  {
    var t := a + "/" + rest;
    assert forall j | 0 <= j < |a| :: t[j] == a[j];
    assert t[|a|] == '/';
  }

  /** The loop tests of the validator: two slashes, none at an end, no two side by side. */
  ghost predicate TwoInnerSlashes(t: string) {
    Slashes(t) == 2 && t[0] != '/' && t[|t| - 1] != '/'
    && forall i | 0 <= i < |t| - 1 :: !(t[i] == '/' && t[i + 1] == '/')
  }

  /** Behind its first slash a string has one slash less. */
  lemma {:induction false} SlashesBehindFirst(s: string)
    requires Slashes(s) > 0
    ensures FirstSlash(s) < |s| && Slashes(s[FirstSlash(s) + 1..]) == Slashes(s) - 1
  {
    if s[0] != '/' {
      SlashesBehindFirst(s[1..]);
      assert s[1..][FirstSlash(s[1..]) + 1..] == s[FirstSlash(s) + 1..];
    }
  }

  lemma Reassemble(s: string, i: nat)
    requires i < |s| && s[i] == '/'
    ensures s == s[..i] + "/" + s[i + 1..]
  {
  }

  /** A slash that is neither first nor last cuts off a segment. */
  lemma CutSegment(s: string) returns (a: string, rest: string)
    requires Slashes(s) > 0 && s[0] != '/' && s[|s| - 1] != '/'
    ensures a == s[..FirstSlash(s)] && |rest| == |s| - |a| - 1 > 0 && s == a + "/" + rest && Segment(a)
    ensures rest == s[|a| + 1..] && rest[|rest| - 1] == s[|s| - 1] && Slashes(rest) == Slashes(s) - 1
    ensures s[|a|] == '/'
  {
    hide Slashes;
    var i := FirstSlash(s);
    SlashesBehindFirst(s);
    Reassemble(s, i);
    a, rest := s[..i], s[i + 1..];
  }

  lemma JoinOf(t: string, a: string, b: string, c: string)
    requires t == a + "/" + (b + "/" + c) && Segment(a) && Segment(b) && Segment(c)
    ensures IsJoin(t, a, b, c)
  {
  }

  lemma SlashTestsSound(t: string)
    requires |t| > 0 && TwoInnerSlashes(t)
    ensures ThreeSegments(t)
  {
    hide Slashes, FirstSlash;
    var a, rest := CutSegment(t);
    assert rest[0] == t[|a| + 1];
    var b, c := CutSegment(rest);
    NoSlashes(c);
    JoinOf(t, a, b, c);
  }

  lemma SlashTestsComplete(t: string, a: string, b: string, c: string)
    requires IsJoin(t, a, b, c)
    ensures TwoInnerSlashes(t)
  {
    OneSlash();
    NoSlashes(a);
    NoSlashes(b);
    NoSlashes(c);
    SlashesConcat(a, "/");
    SlashesConcat(a + "/", b);
    SlashesConcat(a + "/" + b, "/");
    SlashesConcat(a + "/" + b + "/", c);
    assert t[0] == a[0] && t[|t| - 1] == c[|c| - 1];
    forall i | 0 <= i < |t| - 1
      ensures !(t[i] == '/' && t[i + 1] == '/')
    {
      if i < |a| {
        assert t[i] == a[i];
      } else if i == |a| {
        assert t[i + 1] == b[0];
      } else if i <= |a| + |b| {
        assert t[i] == b[i - |a| - 1];
      } else if i == |a| + 1 + |b| {
        assert t[i + 1] == c[0];
      } else {
        assert t[i] == c[i - |a| - |b| - 2];
      }
    }
  }

  /** A topic splits into its segments in one way only. */
  lemma DecompositionUnique(t: string, a: string, b: string, c: string, x: string, y: string, z: string)
    requires IsJoin(t, a, b, c) && IsJoin(t, x, y, z)
    ensures a == x && b == y && c == z
  {
    assert t == a + "/" + (b + "/" + c) == x + "/" + (y + "/" + z);
    FirstSlashOf(a, b + "/" + c);
    FirstSlashOf(x, y + "/" + z);
    assert a == t[..|a|] == x;
    var rest := t[|a| + 1..];
    assert rest == b + "/" + c == y + "/" + z;
    FirstSlashOf(b, c);
    FirstSlashOf(y, z);
    assert b == rest[..|b|] == y;
    assert c == rest[|b| + 1..] == z;
  }

  // ---------- the validator ----------

  /** strncmp(topic, prefix, strlen(prefix)) == 0 */
  predicate HasPrefix(t: string, prefix: string) {
    |prefix| <= |t| && t[..|prefix|] == prefix
  }

  lemma PrefixGivesSegment(t: string, name: string)
    requires '/' !in name && HasPrefix(t, name + "/")
    ensures FirstSlash(t) == |name| < |t| && t[..|name|] == name
  {
    hide FirstSlash;
    var rest := t[|name| + 1..];
    assert t == t[..|name| + 1] + rest;
    FirstSlashOf(name, rest);
    assert t[..|name|] == (name + "/")[..|name|];
  }

  lemma SegmentGivesPrefix(t: string, i: nat)
    requires i < |t| && t[i] == '/'
    ensures HasPrefix(t, t[..i] + "/")
  {
    assert t[..i + 1] == t[..i] + [t[i]];
  }

  /** A prefix test with the slash in it is a test of the whole first segment. */
  lemma PrefixIsFirstSegment(t: string, name: string)
    requires '/' !in name
    ensures HasPrefix(t, name + "/") <==> FirstSlash(t) < |t| && t[..FirstSlash(t)] == name
  {
    var i := FirstSlash(t);
    hide FirstSlash;
    if HasPrefix(t, name + "/") {
      PrefixGivesSegment(t, name);
    }
    if i < |t| && t[..i] == name { SegmentGivesPrefix(t, i); }
  }

  /** The loop over the reserved namespaces. */
  method Reserved(t: string) returns (reserved: bool)
    ensures reserved <==> FirstSlash(t) < |t| && t[..FirstSlash(t)] in {"kernel", "safety"}
  {
    PrefixIsFirstSegment(t, "system");
    PrefixIsFirstSegment(t, "kernel");
    PrefixIsFirstSegment(t, "safety");
    assert "system" + "/" == "system/" && "kernel" + "/" == "kernel/" && "safety" + "/" == "safety/";
    if HasPrefix(t, "system/") { return false; }
    var namespaces := ["system/", "kernel/", "safety/"];
    for i := 0 to |namespaces|
      invariant i > 1 ==> !HasPrefix(t, "kernel/")
      invariant i > 2 ==> !HasPrefix(t, "safety/")
    {
      if namespaces[i] != "system/" {
        if HasPrefix(t, namespaces[i]) { return true; }
      }
    }
    return false;
  }

  method CountSlashes(t: string) returns (count: nat)
    ensures count == Slashes(t)
  {
    count := 0;
    for i := 0 to |t|
      invariant count + Slashes(t[i..]) == Slashes(t)
    {
      assert t[i..][1..] == t[i + 1..];
      if t[i] == '/' { count := count + 1; }
    }
  }

  lemma FormatByTests(t: string)
    requires |t| > 0
    ensures ThreeSegments(t) <==> TwoInnerSlashes(t)
  {
    if TwoInnerSlashes(t) { SlashTestsSound(t); }
    if ThreeSegments(t) {
      var a, b, c :| IsJoin(t, a, b, c);
      SlashTestsComplete(t, a, b, c);
    }
  }

  /** ipc_validate_topic: for every string, valid or not, the answer of the grammar. */
  method ValidateTopic(topic: Option<string>) returns (result: Validation)
    ensures result == if topic == None then InvalidFormat else Verdict(topic.value)
  {
    if topic == None { return InvalidFormat; }
    var t := topic.value;
    if |t| == 0 || |t| > MAX_TOPIC_LENGTH { return LengthExceeded; }
    FormatByTests(t);
    var slashes := CountSlashes(t);
    if slashes != 2 { return InvalidFormat; }
    if t[0] == '/' || t[|t| - 1] == '/' { return InvalidFormat; }
    for i := 0 to |t| - 1
      invariant forall j | 0 <= j < i :: !(t[j] == '/' && t[j + 1] == '/')
    {
      if t[i] == '/' && t[i + 1] == '/' { return InvalidFormat; }
    }
    var reserved := Reserved(t);
    NoSlashes(t);
    if reserved { return ReservedNamespace; }
    return Valid;
  }

  /** The verdicts in closed form. */
  lemma ValidIff(t: string)
    ensures Verdict(t) == Valid <==>
              |t| <= 64 && exists a, b, c :: IsJoin(t, a, b, c) && a != "kernel" && a != "safety"
    ensures Verdict(t) == ReservedNamespace <==>
              |t| <= 64 && exists a, b, c :: IsJoin(t, a, b, c) && (a == "kernel" || a == "safety")
    ensures Verdict(t) == LengthExceeded <==> |t| == 0 || |t| > 64
    ensures Verdict(t) == InvalidFormat <==> 0 < |t| <= 64 && forall a, b, c :: !IsJoin(t, a, b, c)
  {
    if a, b, c :| IsJoin(t, a, b, c) {
      assert t == a + "/" + (b + "/" + c);
      FirstSlashOf(a, b + "/" + c);
      assert t[..FirstSlash(t)] == a;
      forall x, y, z | IsJoin(t, x, y, z)
        ensures x == a
      {
        DecompositionUnique(t, a, b, c, x, y, z);
      }
    }
  }

  lemma FirstSegmentOfJoin(t: string, a: string, b: string, c: string)
    requires IsJoin(t, a, b, c)
    ensures FirstSlash(t) == |a| < |t| && t[..|a|] == a
  {
    hide FirstSlash;
    assert t == a + "/" + (b + "/" + c);
    FirstSlashOf(a, b + "/" + c);
  }

  lemma VerdictOfJoin(t: string, a: string, b: string, c: string)
    requires IsJoin(t, a, b, c) && |t| <= MAX_TOPIC_LENGTH
    ensures Verdict(t) == if a in {"kernel", "safety"} then ReservedNamespace else Valid
  {
    hide IsJoin, FirstSlash;
    FirstSegmentOfJoin(t, a, b, c);
    assert ThreeSegments(t);
  }

  // ---------- categories ----------

  function CategoryNames(): (names: seq<string>)
    ensures |names| == CATEGORY_COUNT
  {
    ["vision", "vehicle", "ai", "system", "safety", "communication", "diagnostics", "power"]
  }

  /** `category` is the number of the name, or CATEGORY_COUNT for a name that is none. */
  predicate IsCategory(name: string, category: nat) {
    if category < CATEGORY_COUNT then CategoryNames()[category] == name
    else category == CATEGORY_COUNT && name !in CategoryNames()
  }

  lemma NamesShort()
    ensures forall name | name in CategoryNames() :: Segment(name) && |name| < CATEGORY_BUFFER
  {
  }

  /** ipc_get_topic_category; CATEGORY_COUNT stands for no category. */
  method TopicCategory(topic: Option<string>) returns (category: nat)
    ensures topic == None || FirstSlash(topic.value) == |topic.value| ==> category == CATEGORY_COUNT
    ensures topic.Some? && FirstSlash(topic.value) < |topic.value| ==>
              IsCategory(topic.value[..FirstSlash(topic.value)], category)
  {
    hide CategoryNames, FirstSlash;
    if topic == None { return CATEGORY_COUNT; }
    var t := topic.value;
    var length := FirstSlash(t);
    if length == |t| { return CATEGORY_COUNT; }
    NamesShort();
    if length >= CATEGORY_BUFFER { return CATEGORY_COUNT; }
    var name := t[..length];
    var names := CategoryNames();
    for i := 0 to CATEGORY_COUNT
      invariant forall j | 0 <= j < i :: names[j] != name
    {
      if name == names[i] { return i; }
    }
    return CATEGORY_COUNT;
  }

  lemma NamesDistinct(a: string, m: nat, n: nat)
    requires IsCategory(a, m) && IsCategory(a, n)
    ensures m == n
  {
    var names := CategoryNames();
    assert |names[0]| == 6 && |names[1]| == 7 && |names[2]| == 2 && |names[3]| == 6;
    assert |names[4]| == 6 && |names[5]| == 13 && |names[6]| == 11 && |names[7]| == 5;
    assert names[0][0] == 'v' && names[3][1] == 'y' && names[4][1] == 'a';
  }

  /** Names are distinct, so a first segment has one category, whatever follows it. */
  lemma CategoryByFirstSegment(a: string, rest: string, other: string, m: nat, n: nat)
    requires '/' !in a
    requires IsCategory((a + "/" + rest)[..FirstSlash(a + "/" + rest)], m)
    requires IsCategory((a + "/" + other)[..FirstSlash(a + "/" + other)], n)
    ensures m == n
  {
    FirstSlashOf(a, rest);
    FirstSlashOf(a, other);
    assert (a + "/" + rest)[..|a|] == a == (a + "/" + other)[..|a|];
    NamesDistinct(a, m, n);
  }

  // ---------- the builder ----------

  function SystemNames(): (names: seq<string>)
    ensures |names| == SYSTEM_TYPE_COUNT
  {
    ["monitor", "diagnostic", "logging", "power"]
  }

  function LoggingNames(): (names: seq<string>)
    ensures |names| == LOGGING_TYPE_COUNT
  {
    ["emergency", "error", "info", "debug"]
  }

  /** The second and third segment that the builder writes behind the category's name. */
  function Tail(category: nat, systemType: nat, loggingType: nat): Option<(string, string)> {
    if category == SYSTEM then
      if systemType >= SYSTEM_TYPE_COUNT then None
      else if systemType == LOGGING then
        if loggingType >= LOGGING_TYPE_COUNT then None else Some(("logging", LoggingNames()[loggingType]))
      else Some((SystemNames()[systemType], "status"))
    else if category == SAFETY then Some(("status", "overall"))
    else if category == VEHICLE then Some(("control", "command"))
    else if category == VISION then Some(("camera", "frame"))
    else if category == AI then Some(("inference", "result"))
    else if category == COMMUNICATION then Some(("can", "message"))
    else if category == DIAGNOSTICS || category == POWER then Some(("status", "overall"))
    else None
  }

  lemma SystemShort(i: nat)
    requires i < SYSTEM_TYPE_COUNT
    ensures Segment(SystemNames()[i]) && |SystemNames()[i]| <= 10
  {
  }

  lemma LoggingShort(i: nat)
    requires i < LOGGING_TYPE_COUNT
    ensures Segment(LoggingNames()[i]) && |LoggingNames()[i]| <= 9
  {
  }

  lemma TailShort(category: nat, systemType: nat, loggingType: nat)
    requires Tail(category, systemType, loggingType).Some?
    ensures var tail := Tail(category, systemType, loggingType).value;
            Segment(tail.0) && Segment(tail.1) && |tail.0| <= 10 && |tail.1| <= 9
  {
    if category == SYSTEM && systemType == LOGGING {
      LoggingShort(loggingType);
    } else if category == SYSTEM {
      SystemShort(systemType);
    } else {
      hide SystemNames, LoggingNames;
    }
  }

  lemma ReservedNames(category: nat)
    requires category < CATEGORY_COUNT
    ensures CategoryNames()[category] in {"kernel", "safety"} <==> category == SAFETY
  {
    assert IsCategory(CategoryNames()[category], category) && IsCategory("safety", SAFETY);
    if CategoryNames()[category] == "safety" { NamesDistinct("safety", category, SAFETY); }
    var names := CategoryNames();
    assert "kernel"[0] == 'k' && forall i | 0 <= i < CATEGORY_COUNT :: names[i][0] != 'k';
  }

  /**
   Every text the builder writes is a topic of its category, and valid unless the category is
   SAFETY, whose namespace the validator reserves: for that category no topic can be built.
   */
  lemma Built(category: nat, systemType: nat, loggingType: nat)
    requires category < CATEGORY_COUNT && Tail(category, systemType, loggingType).Some?
    ensures var tail := Tail(category, systemType, loggingType).value;
            var text := Join(CategoryNames()[category], tail.0, tail.1);
            && IsJoin(text, CategoryNames()[category], tail.0, tail.1)
            && (Verdict(text) == Valid <==> category != SAFETY)
            && IsCategory(text[..FirstSlash(text)], category)
  {
    TailShort(category, systemType, loggingType);
    NamesShort();
    ReservedNames(category);
    hide Tail, CategoryNames;
    var tail := Tail(category, systemType, loggingType).value;
    var name := CategoryNames()[category];
    var text := Join(name, tail.0, tail.1);
    assert name in CategoryNames();
    assert IsJoin(text, name, tail.0, tail.1);
    hide Verdict, FirstSlash, IsJoin;
    FirstSegmentOfJoin(text, name, tail.0, tail.1);
    VerdictOfJoin(text, name, tail.0, tail.1);
  }

  /** What the builder writes for its parameters. */
  function Text(category: nat, systemType: nat, loggingType: nat): string
    requires category < CATEGORY_COUNT && Tail(category, systemType, loggingType).Some?
  {
    var tail := Tail(category, systemType, loggingType).value;
    Join(CategoryNames()[category], tail.0, tail.1)
  }

  /** The texts for the SYSTEM category, number 3, by its types: the predefined names of the header. */
  lemma PredefinedSystemTopics(any: nat)
    ensures Tail(3, 0, any).Some? && Text(3, 0, any) == Join("system", "monitor", "status")
    ensures Tail(3, 1, any).Some? && Text(3, 1, any) == Join("system", "diagnostic", "status")
    ensures Tail(3, 3, any).Some? && Text(3, 3, any) == Join("system", "power", "status")
    ensures Text(3, 2, 0) == Join("system", "logging", "emergency")
    ensures Text(3, 2, 1) == Join("system", "logging", "error")
    ensures Text(3, 2, 2) == Join("system", "logging", "info")
    ensures Text(3, 2, 3) == Join("system", "logging", "debug")
    ensures forall t: nat :: Tail(3, t, any) == None <==> t >= 4 || (t == 2 && any >= 4)
  {
  }

  /** The texts for the other categories by their numbers, which look at no further parameter. */
  lemma PredefinedTopics(any: nat, other: nat)
    ensures Tail(0, any, other).Some? && Text(0, any, other) == Join("vision", "camera", "frame")
    ensures Tail(1, any, other).Some? && Text(1, any, other) == Join("vehicle", "control", "command")
    ensures Tail(2, any, other).Some? && Text(2, any, other) == Join("ai", "inference", "result")
    ensures Tail(4, any, other).Some? && Text(4, any, other) == Join("safety", "status", "overall")
    ensures Tail(5, any, other).Some? && Text(5, any, other) == Join("communication", "can", "message")
    ensures Tail(6, any, other).Some? && Text(6, any, other) == Join("diagnostics", "status", "overall")
    ensures Tail(7, any, other).Some? && Text(7, any, other) == Join("power", "status", "overall")
  {
  }

  /** The topic that the logging client publishes to. */
  lemma ClientTopic()
    ensures Text(3, 2, 2) == "system/logging/info"
  {
  }

  /** ipc_build_topic: the text is written first and validated at the end. */
  method BuildTopic(category: nat, systemType: nat, loggingType: nat) returns (topic: Option<string>)
    ensures topic.Some? <==>
              category < CATEGORY_COUNT && category != SAFETY && Tail(category, systemType, loggingType).Some?
    ensures topic.Some? ==>
              && Verdict(topic.value) == Valid
              && IsJoin(topic.value, CategoryNames()[category], Tail(category, systemType, loggingType).value.0,
                        Tail(category, systemType, loggingType).value.1)
              && IsCategory(topic.value[..FirstSlash(topic.value)], category)
              && topic.value == Text(category, systemType, loggingType)
  {
    if category >= CATEGORY_COUNT { return None; }
    var tail := Tail(category, systemType, loggingType);
    if tail == None { return None; }
    var text := Join(CategoryNames()[category], tail.value.0, tail.value.1);
    Built(category, systemType, loggingType);
    var verdict := ValidateTopic(Some(text));
    if verdict != Valid { return None; }
    return Some(text);
  }
}
