/**
 * What the parser makes of the comment segments the serialiser and SetApp
 * write, in the form a rule listing shows them (`-m comment --comment …`),
 * and a worked listing line.
 */
module ParseProperties {
  import opened Wrappers
  import opened Strings
  import opened Targets
  import opened Matches
  import opened RuleModel
  import opened RuleText
  import opened RuleParse

  /** A comment word free of quotes comes through the quote stripping unchanged. */
  lemma {:induction false} CommentTextOfWord(w: string)
    requires '"' !in w && '\'' !in w
    ensures CommentText([w]) == w
  {
    if Contains(w, "\\\"") {
      ContainsChars(w, "\\\"", 1);
    }
    NotContainsChar(w, "\"");
    NotContainsChar(w, "'");
  }

  /** A double-quoted comment word, as a listing prints it, loses its quotes. */
  lemma QuotedCommentText(w: string)
    requires '"' !in w && '\'' !in w && '\\' !in w
    ensures CommentText(["\"" + w + "\""]) == w
  {
    var q := "\"" + w + "\"";
    assert Join([q], " ") == q;
    assert '\\' !in q;
    NotContainsChar(q, "\\\"");
    assert RemoveAll(q, "\\\"") == q;
    assert "\"" == ['"'];
    assert q == "\"" + (w + "\"");
    assert RemoveAll(q, "\"") == RemoveAll(w + "\"", "\"");
    RemoveAllKeeps(w, "\"", '"');
    assert RemoveAll("\"", "\"") == "";
    assert RemoveAll(q, "\"") == w;
    NotContainsChar(w, "'");
    assert RemoveAll(w, "'") == w;
  }

  /** Comment words free of quotes come through as they were, joined by single spaces. */
  lemma CommentTextOfWords(words: seq<string>)
    requires forall i :: 0 <= i < |words| ==> '"' !in words[i] && '\'' !in words[i]
    ensures CommentText(words) == Join(words, " ")
  {
    var j := Join(words, " ");
    JoinAvoids(words, " ", '"');
    JoinAvoids(words, " ", '\'');
    if Contains(j, "\\\"") {
      ContainsChars(j, "\\\"", 1);
    }
    NotContainsChar(j, "\"");
    NotContainsChar(j, "'");
  }

  /** A two-word comment quoted across its words, as Fields splits it, loses its quotes and keeps the space. */
  lemma QuotedWordsText(w1: string, w2: string)
    requires '"' !in w1 && '\'' !in w1 && '\\' !in w1
    requires '"' !in w2 && '\'' !in w2 && '\\' !in w2
    ensures CommentText(["\"" + w1, w2 + "\""]) == w1 + " " + w2
  {
    var w := w1 + " " + w2;
    assert Join(["\"" + w1, w2 + "\""], " ") == Join(["\"" + w + "\""], " ");
    QuotedCommentText(w);
  }

  /** A comment with two colons carries no marker: Split does not give exactly two parts. */
  lemma TwoColonsNoMarker(text: string, i: nat, j: nat)
    requires i < j < |text| && text[i] == ':' && text[j] == ':'
    ensures CommentMarker(text).None?
  {
    SplitTwice(text, ':', i, j);
  }

  /** The three fixed words of a comment segment are words that Fields keeps whole (a step of CommentFields). */
  lemma CommentFlagWords()
    ensures IsWord("-m") && IsWord("comment") && IsWord("--comment")
  {
  }

  /** The comment segment's words joined by spaces, written out (a step of CommentFields). */
  lemma CommentJoin(text: string)
    ensures Join(["-m", "comment", "--comment", text], " ") == "-m comment --comment " + text
  {
    var ws := ["-m", "comment", "--comment", text];
    assert Join(ws[3..], " ") == text;
    assert Join(ws[2..], " ") == "--comment " + text;
    assert Join(ws[1..], " ") == "comment --comment " + text;
  }

  /** The four fields of a comment segment `-m comment --comment <text>`. */
  lemma CommentFields(text: string)
    requires IsWord(text)
    ensures Fields("-m comment --comment " + text) == ["-m", "comment", "--comment", text]
  {
    var ws := ["-m", "comment", "--comment", text];
    CommentJoin(text);
    CommentFlagWords();
    assert forall i :: 0 <= i < |ws| ==> IsWord(ws[i]) by {
      assert ws[0] == "-m" && ws[1] == "comment" && ws[2] == "--comment" && ws[3] == text;
    }
    FieldsOfJoin(ws);
  }

  /** `-m comment --comment` at field `i`: the comment words run from field `i + 3` to `e`. */
  lemma CommentMatchStep(r: RuleData, f: seq<string>, i: nat, e: nat)
    requires i + 3 < |f| && f[i] == "-m" && f[i + 1] == "comment" && f[i + 2] == "--comment"
    requires CommentEnd(f, i + 3) == Some(e)
    ensures ParseStep(r, f, i) == Next(RecordComment(r, CommentText(f[i + 3..e]), false), e)
  {
    assert ParseStep(r, f, i) == ParseFlag(r, f, i, false);
    assert !IsCriterionFlag(f[i]);
    assert ParseFlag(r, f, i, false) == ParseMatch(r, f, i, false);
    assert ParseMatch(r, f, i, false) == MatchAt(r, f, "comment", i, false);
    assert !IsPortOption("comment", ReplaceFirst("--comment", "--", ""));
    assert MatchAt(r, f, "comment", i, false) == CommentAt(r, f, i, false);
  }

  /**
   * A comment match read from a listing, followed by another flag: the
   * comment's single word is the text, recorded by `RecordComment`.
   */
  lemma CommentStep(r: RuleData, text: string, rest: seq<string>)
    requires IsWord(text) && !HasPrefix(text, "-") && '"' !in text && '\'' !in text
    requires rest != [] && HasPrefix(rest[0], "-")
    ensures ParseStep(r, ["-m", "comment", "--comment", text] + rest, 0)
            == Next(RecordComment(r, text, false), 4)
  {
    var f := ["-m", "comment", "--comment", text] + rest;
    assert f[3] == text && f[4] == rest[0];
    assert CommentEnd(f, 4) == Some(4);
    assert CommentEnd(f, 3) == Some(4);
    CommentMatchStep(r, f, 0, 4);
    assert f[3..4] == [text];
    CommentTextOfWord(text);
  }

  /** A comment holding one `name:value` marker records that marker before the match. */
  lemma MarkerComment(r: RuleData, mk: Marker)
    requires ':' !in mk.name && ':' !in mk.value
    ensures RecordComment(r, mk.String(), false)
            == RecordMatch(r.(markers := r.markers + [mk]), Comment(mk.String(), false))
  {
    MarkerRoundTrip(mk);
  }

  /** The four fields of the id segment. */
  lemma IdFields(id: string)
    requires IsWord(id)
    ensures Fields(IdSegment(id)) == ["-m", "comment", "--comment", "id:" + id]
  {
    var text := "id:" + id;
    assert IdSegment(id) == "-m comment --comment " + text;
    assert IsWord(text) by {
      assert forall k :: 3 <= k < |text| ==> text[k] == id[k - 3];
    }
    CommentFields(text);
  }

  /** The four fields of the name segment. */
  lemma NameFields(name: string)
    requires IsWord(name)
    ensures Fields(NameSegment(name)) == ["-m", "comment", "--comment", "name:" + name]
  {
    var text := "name:" + name;
    assert NameSegment(name) == "-m comment --comment " + text;
    assert IsWord(text) by {
      assert forall k :: 5 <= k < |text| ==> text[k] == name[k - 5];
    }
    CommentFields(text);
  }

  /** An `id:<id>` comment records an `id` marker and sets the id. */
  lemma IdRecorded(r: RuleData, id: string)
    requires ':' !in id
    ensures RecordComment(r, "id:" + id, false) == r.(markers := r.markers + [Marker("id", id)], id := id)
  {
    var text := "id:" + id;
    var mk := Marker("id", id);
    assert mk.String() == text;
    MarkerComment(r, mk);
    assert text[3..] == id;
  }

  /** A `name:<name>` comment records a `name` marker and sets the name. */
  lemma NameRecorded(r: RuleData, name: string)
    requires ':' !in name
    ensures RecordComment(r, "name:" + name, false) == r.(markers := r.markers + [Marker("name", name)], name := name)
  {
    var text := "name:" + name;
    var mk := Marker("name", name);
    assert mk.String() == text;
    MarkerComment(r, mk);
    assert !HasPrefix(text, "id:") by {
      assert text[..3][0] == 'n' && "id:"[0] == 'i';
    }
    assert text[5..] == name;
  }

  /** An `app:<app>` comment records an `app` marker and keeps the comment as a match. */
  lemma AppRecorded(r: RuleData, app: string)
    requires ':' !in app
    ensures RecordComment(r, "app:" + app, false) == WithApp(r, app)
  {
    var text := "app:" + app;
    var mk := Marker("app", app);
    assert mk.String() == text;
    MarkerComment(r, mk);
    assert !HasPrefix(text, "id:") by {
      assert text[..3][0] == 'a' && "id:"[0] == 'i';
    }
    assert !HasPrefix(text, "name:") by {
      if |text| >= 5 {
        assert text[..5][0] == 'a' && "name:"[0] == 'n';
      }
    }
  }

  /** The `-m comment --comment id:<id>` segment the serialiser writes, read back: the id, and an `id` marker. */
  lemma IdCommentParsed(r: RuleData, id: string, rest: seq<string>)
    requires IsWord(id) && '"' !in id && '\'' !in id && ':' !in id
    requires rest != [] && HasPrefix(rest[0], "-")
    ensures ParseStep(r, Fields(IdSegment(id)) + rest, 0)
            == Next(r.(markers := r.markers + [Marker("id", id)], id := id), 4)
  {
    var text := "id:" + id;
    assert text[0] == 'i';
    assert IsWord(text) by {
      assert forall k :: 3 <= k < |text| ==> text[k] == id[k - 3];
    }
    IdFields(id);
    CommentStep(r, text, rest);
    IdRecorded(r, id);
  }

  /** The `-m comment --comment name:<name>` segment, read back: the name, and a `name` marker. */
  lemma NameCommentParsed(r: RuleData, name: string, rest: seq<string>)
    requires IsWord(name) && '"' !in name && '\'' !in name && ':' !in name
    requires rest != [] && HasPrefix(rest[0], "-")
    ensures ParseStep(r, Fields(NameSegment(name)) + rest, 0)
            == Next(r.(markers := r.markers + [Marker("name", name)], name := name), 4)
  {
    var text := "name:" + name;
    assert text[0] == 'n';
    assert IsWord(text) by {
      assert forall k :: 5 <= k < |text| ==> text[k] == name[k - 5];
    }
    NameFields(name);
    CommentStep(r, text, rest);
    NameRecorded(r, name);
  }

  /**
   * The comment SetApp adds, as a listing shows it, read back: the same
   * marker and the same comment match SetApp appends.
   */
  lemma AppCommentParsed(r: RuleData, app: string, rest: seq<string>)
    requires IsWord(app) && '"' !in app && '\'' !in app && ':' !in app
    requires rest != [] && HasPrefix(rest[0], "-")
    ensures ParseStep(r, ["-m", "comment", "--comment", "app:" + app] + rest, 0)
            == Next(WithApp(r, app), 4)
  {
    var text := "app:" + app;
    assert text[0] == 'a';
    assert IsWord(text) by {
      assert forall k :: 4 <= k < |text| ==> text[k] == app[k - 4];
    }
    CommentStep(r, text, rest);
    AppRecorded(r, app);
  }

  /** A double-quoted `id:<id>` comment, as listings print it, read back: the id and an `id` marker. */
  lemma QuotedIdParsed(r: RuleData, f: seq<string>, i: nat, id: string)
    requires '"' !in id && '\'' !in id && '\\' !in id && ':' !in id
    requires i + 4 < |f| && f[i] == "-m" && f[i + 1] == "comment" && f[i + 2] == "--comment"
    requires f[i + 3] == "\"" + ("id:" + id) + "\"" && HasPrefix(f[i + 4], "-")
    ensures ParseStep(r, f, i) == Next(r.(markers := r.markers + [Marker("id", id)], id := id), i + 4)
  {
    assert f[i + 3][0] == '"';
    assert CommentEnd(f, i + 4) == Some(i + 4);
    assert CommentEnd(f, i + 3) == Some(i + 4);
    CommentMatchStep(r, f, i, i + 4);
    assert f[i + 3..i + 4] == [f[i + 3]];
    QuotedCommentText("id:" + id);
    IdRecorded(r, id);
  }

  /** A one-value flag, plain or after `!`: its value is set, with the negation, two or three fields on. */
  lemma CriterionStep(r: RuleData, f: seq<string>, i: nat)
    requires i + 2 < |f|
    requires IsCriterionFlag(f[i]) || (f[i] == "!" && IsCriterionFlag(f[i + 1]))
    ensures IsCriterionFlag(f[i]) ==> ParseStep(r, f, i) == Next(SetCriterion(r, f[i], f[i + 1], false), i + 2)
    ensures f[i] == "!" ==> ParseStep(r, f, i) == Next(SetCriterion(r, f[i + 1], f[i + 2], true), i + 3)
  {
  }

  /** One step of the loop: parsing from field `i` is parsing on from where that step leaves off. */
  lemma FromStep(r: RuleData, f: seq<string>, i: nat, s: RuleData, n: nat)
    requires i < |f| && ParseStep(r, f, i) == Next(s, n)
    ensures n <= |f| && ParseFrom(r, f, i) == ParseFrom(s, f, n)
  {
  }

  /** `-A <chain> -s <src> ! -d <dst> -p <proto>`: four steps, the destination alone negated. */
  lemma ListingCriteria(r: RuleData, f: seq<string>)
    requires |f| > 9 && f[0] == "-A" && f[2] == "-s" && f[4] == "!" && f[5] == "-d" && f[7] == "-p"
    ensures ParseFrom(r, f, 0)
            == ParseFrom(r.(chain := f[1], source := f[3], sourceNegated := false,
                            destination := f[6], destinationNegated := true,
                            protocol := f[8], protocolNegated := false), f, 9)
  {
    var r1 := r.(chain := f[1]);
    var r2 := r1.(source := f[3], sourceNegated := false);
    var r3 := r2.(destination := f[6], destinationNegated := true);
    var r4 := r3.(protocol := f[8], protocolNegated := false);
    CriterionStep(r, f, 0);
    FromStep(r, f, 0, r1, 2);
    CriterionStep(r1, f, 2);
    FromStep(r1, f, 2, r2, 4);
    CriterionStep(r2, f, 4);
    FromStep(r2, f, 4, r3, 7);
    CriterionStep(r3, f, 7);
    FromStep(r3, f, 7, r4, 9);
  }

  /** `-j <name>` for a name without arguments of its own: a jump to that name. */
  lemma JumpStep(r: RuleData, f: seq<string>, i: nat)
    requires i + 1 < |f| && f[i] == "-j"
    requires f[i + 1] != "DNAT" && f[i + 1] != "SNAT" && f[i + 1] != "DSCP" && f[i + 1] != "MASQUERADE"
    ensures ParseStep(r, f, i) == Next(r.(target := Some(Jump(f[i + 1]))), i + 2)
  {
    assert ParseStep(r, f, i) == ParseTarget(r, f, i);
  }

  /** A closing `-j <name>`: the line parses with that jump as the target. */
  lemma JumpCloses(r: RuleData, f: seq<string>, i: nat)
    requires i + 2 == |f| && f[i] == "-j"
    requires f[i + 1] != "DNAT" && f[i + 1] != "SNAT" && f[i + 1] != "DSCP" && f[i + 1] != "MASQUERADE"
    ensures ParseFrom(r, f, i) == Parsed(r.(target := Some(Jump(f[i + 1]))), None)
  {
    JumpStep(r, f, i);
    FromStep(r, f, i, r.(target := Some(Jump(f[i + 1]))), i + 2);
  }

  /** `-g <name>` for a name without arguments: a goto target, and parsing resumes two fields on. */
  lemma GotoStep(r: RuleData, f: seq<string>, i: nat)
    requires i + 1 < |f| && f[i] == "-g" && !TakesArguments(f[i + 1])
    ensures ParseStep(r, f, i) == Next(r.(target := Some(Goto(f[i + 1]))), i + 2)
  {
    assert ParseStep(r, f, i) == ParseTarget(r, f, i);
  }

  /** `-j MASQUERADE` without `--to-ports` takes no argument: the next flag is read straight after it. */
  lemma MasqueradeStep(r: RuleData)
    ensures ParseStep(r, ["-j", "MASQUERADE", "-p", "tcp"], 0)
         == Next(r.(target := Some(Unmodelled("MASQUERADE", []))), 2)
  {
    var f := ["-j", "MASQUERADE", "-p", "tcp"];
    assert ParseStep(r, f, 0) == ParseTarget(r, f, 0);
  }

  /** `-j DSCP --set-dscp 0x10` consumes four fields and records a DSCP target whose class is always 0. */
  lemma DscpStep(r: RuleData)
    ensures ParseStep(r, ["-j", "DSCP", "--set-dscp", "0x10"], 0) == Next(r.(target := Some(Dscp(0))), 4)
  {
    var f := ["-j", "DSCP", "--set-dscp", "0x10"];
    assert ParseStep(r, f, 0) == ParseTarget(r, f, 0);
  }

  /** `-m tcp ! --dport 80`: the `!` inside the match negates the destination port, and parsing resumes at field 5. */
  lemma NegatedPortStep(r: RuleData)
    ensures ParseStep(r, ["-m", "tcp", "!", "--dport", "80"], 0)
         == Next(r.(destinationPort := "80", destinationPortNegated := true), 5)
  {
    var f := ["-m", "tcp", "!", "--dport", "80"];
    assert HasPrefix(f[3], "--");
    assert ReplaceFirst(f[3], "--", "") == "dport";
    assert HasPrefix("dport", "dport");
    assert ParseStep(r, f, 0) == ParseMatch(r, f, 0, false);
  }

  /** `-m state --state NEW`: a match with no dedicated field is kept as a generic match, option name without its dashes. */
  lemma GenericMatchStep(r: RuleData)
    ensures ParseStep(r, ["-m", "state", "--state", "NEW"], 0)
         == Next(r.(matches := r.matches + [Generic("state", "state", "NEW", false)]), 4)
  {
    var f := ["-m", "state", "--state", "NEW"];
    assert HasPrefix(f[2], "--");
    assert ReplaceFirst(f[2], "--", "") == "state";
    assert ParseStep(r, f, 0) == ParseMatch(r, f, 0, false);
  }

  /** A quoted id comment at field `i` followed by a flag: parsing goes on at `i + 4` with the id and its marker. */
  lemma QuotedIdFrom(r: RuleData, f: seq<string>, i: nat, id: string)
    requires '"' !in id && '\'' !in id && '\\' !in id && ':' !in id
    requires i + 4 < |f| && f[i] == "-m" && f[i + 1] == "comment" && f[i + 2] == "--comment"
    requires f[i + 3] == "\"" + ("id:" + id) + "\"" && HasPrefix(f[i + 4], "-")
    ensures ParseFrom(r, f, i) == ParseFrom(r.(markers := r.markers + [Marker("id", id)], id := id), f, i + 4)
  {
    QuotedIdParsed(r, f, i, id);
    FromStep(r, f, i, r.(markers := r.markers + [Marker("id", id)], id := id), i + 4);
  }

  /** A quoted id comment at field 9 and `-j ACCEPT` closing the line. */
  lemma ListingCommentAndTarget(r: RuleData, f: seq<string>, id: string)
    requires '"' !in id && '\'' !in id && '\\' !in id && ':' !in id
    requires |f| == 15 && f[9] == "-m" && f[10] == "comment" && f[11] == "--comment"
    requires f[12] == "\"" + ("id:" + id) + "\"" && f[13] == "-j" && f[14] == "ACCEPT"
    ensures ParseFrom(r, f, 9)
            == Parsed(r.(markers := r.markers + [Marker("id", id)], id := id,
                         target := Some(Jump("ACCEPT"))), None)
  {
    var r5 := r.(markers := r.markers + [Marker("id", id)], id := id);
    QuotedIdFrom(r, f, 9, id);
    JumpCloses(r5, f, 13);
  }

  /**
   * A listing line with a chain, a source, a negated destination, a protocol,
   * a double-quoted id comment and a jump to ACCEPT: each value lands in its
   * field, the destination alone is negated, and the id comment gives the id
   * and an `id` marker.
   */
  lemma ListingLine(r: RuleData, f: seq<string>, chain: string, src: string, dst: string, proto: string, id: string)
    requires '"' !in id && '\'' !in id && '\\' !in id && ':' !in id
    requires f == ["-A", chain, "-s", src, "!", "-d", dst, "-p", proto,
                   "-m", "comment", "--comment", "\"" + ("id:" + id) + "\"", "-j", "ACCEPT"]
    ensures ParseFrom(r, f, 0)
            == Parsed(r.(chain := chain, source := src, sourceNegated := false,
                         destination := dst, destinationNegated := true,
                         protocol := proto, protocolNegated := false)
                       .(markers := r.markers + [Marker("id", id)], id := id,
                         target := Some(Jump("ACCEPT"))), None)
  {
    var r4 := r.(chain := chain, source := src, sourceNegated := false,
                 destination := dst, destinationNegated := true,
                 protocol := proto, protocolNegated := false);
    assert |f| == 15 && f[0] == "-A" && f[1] == chain && f[2] == "-s" && f[3] == src && f[4] == "!";
    assert f[5] == "-d" && f[6] == dst && f[7] == "-p" && f[8] == proto;
    ListingCriteria(r, f);
    assert f[9] == "-m" && f[10] == "comment" && f[11] == "--comment";
    assert f[12] == "\"" + ("id:" + id) + "\"" && f[13] == "-j" && f[14] == "ACCEPT";
    ListingCommentAndTarget(r4, f, id);
  }

  /** The FORWARD line: chain FORWARD, source 10.0.0.0/8, negated destination 192.168.0.0/16, tcp, id r1, ACCEPT. */
  lemma ForwardExample()
    ensures var f := ["-A", "FORWARD", "-s", "10.0.0.0/8", "!", "-d", "192.168.0.0/16", "-p", "tcp",
                      "-m", "comment", "--comment", "\"" + ("id:" + "r1") + "\"", "-j", "ACCEPT"];
            var p := ParseFrom(ZeroRule.(table := "filter"), f, 0);
            p.err.None? && p.rule.chain == "FORWARD" && p.rule.source == "10.0.0.0/8" && !p.rule.sourceNegated
            && p.rule.destination == "192.168.0.0/16" && p.rule.destinationNegated
            && p.rule.protocol == "tcp" && p.rule.id == "r1" && p.rule.target == Some(Jump("ACCEPT"))
  {
    var f := ["-A", "FORWARD", "-s", "10.0.0.0/8", "!", "-d", "192.168.0.0/16", "-p", "tcp",
              "-m", "comment", "--comment", "\"" + ("id:" + "r1") + "\"", "-j", "ACCEPT"];
    ListingLine(ZeroRule.(table := "filter"), f, "FORWARD", "10.0.0.0/8", "192.168.0.0/16", "tcp", "r1");
  }
}
