/** Printing the WireGuard client configuration. */
module Conf {
  import opened Wrappers
  import opened Text

  datatype WgConfParams = WgConfParams(
    privateKey: string, address: string, dns: string, serverPubkey: string,
    presharedKey: Option<string>, endpoint: string, allowedIPs: string)

  function Line(s: string): string {
    s + "\n"
  }

  /** The text, with the PresharedKey line only when there is a key. */
  function RenderConf(p: WgConfParams): string {
    var pskLine := match p.presharedKey case Some(psk) => Line("PresharedKey = " + psk) case None => "";
    Line("[Interface]") + Line("PrivateKey = " + p.privateKey) + Line("Address = " + p.address) + Line("DNS = " + p.dns)
    + Line("") + Line("[Peer]") + Line("PublicKey = " + p.serverPubkey)
    + pskLine + Line("Endpoint = " + p.endpoint) + Line("AllowedIPs = " + p.allowedIPs)
    + Line("PersistentKeepalive = 25")
  }

  ghost predicate NewlineFree(p: WgConfParams) {
    && Free(p.privateKey, '\n') && Free(p.address, '\n') && Free(p.dns, '\n') && Free(p.serverPubkey, '\n')
    && (p.presharedKey.Some? ==> Free(p.presharedKey.value, '\n')) && Free(p.endpoint, '\n') && Free(p.allowedIPs, '\n')
  }

  function ConfLines(p: WgConfParams): seq<string> {
    ["[Interface]", "PrivateKey = " + p.privateKey, "Address = " + p.address, "DNS = " + p.dns,
     "", "[Peer]", "PublicKey = " + p.serverPubkey]
    + (match p.presharedKey case Some(psk) => ["PresharedKey = " + psk] case None => [])
    + ["Endpoint = " + p.endpoint, "AllowedIPs = " + p.allowedIPs, "PersistentKeepalive = 25"]
  }

  /** The lines, each ended by a newline. */
  function Printed(lines: seq<string>): string {
    if lines == [] then "" else Printed(lines[..|lines| - 1]) + Line(lines[|lines| - 1])
  }

  lemma PrintedSnoc(lines: seq<string>, line: string)
    ensures Printed(lines + [line]) == Printed(lines) + Line(line)
  {
    assert (lines + [line])[..|lines|] == lines;
  }

  lemma HeadText(a: string, b: string, c: string, d: string, e: string, f: string, g: string)
    ensures Printed([a, b, c, d, e, f, g]) == Line(a) + Line(b) + Line(c) + Line(d) + Line(e) + Line(f) + Line(g)
  {
    PrintedSnoc([], a);
    assert Printed([]) + Line(a) == Line(a) && [] + [a] == [a];
    PrintedSnoc([a], b);
    PrintedSnoc([a, b], c);
    PrintedSnoc([a, b, c], d);
    PrintedSnoc([a, b, c, d], e);
    PrintedSnoc([a, b, c, d, e], f);
    PrintedSnoc([a, b, c, d, e, f], g);
    assert [a] + [b] == [a, b] && [a, b] + [c] == [a, b, c] && [a, b, c] + [d] == [a, b, c, d];
    assert [a, b, c, d] + [e] == [a, b, c, d, e] && [a, b, c, d, e] + [f] == [a, b, c, d, e, f];
    assert [a, b, c, d, e, f] + [g] == [a, b, c, d, e, f, g];
  }

  lemma TailText(lines: seq<string>, a: string, b: string, c: string)
    ensures Printed(lines + [a, b, c]) == Printed(lines) + Line(a) + Line(b) + Line(c)
  {
    PrintedSnoc(lines, a);
    PrintedSnoc(lines + [a], b);
    PrintedSnoc(lines + [a] + [b], c);
    assert lines + [a] + [b] + [c] == lines + [a, b, c];
  }

  lemma RenderIsLines(p: WgConfParams)
    ensures RenderConf(p) == Printed(ConfLines(p))
  {
    var head := ["[Interface]", "PrivateKey = " + p.privateKey, "Address = " + p.address, "DNS = " + p.dns,
                 "", "[Peer]", "PublicKey = " + p.serverPubkey];
    HeadText(head[0], head[1], head[2], head[3], head[4], head[5], head[6]);
    assert Printed(head) + "" == Printed(head) && head + [] == head;
    var a, b, c := "Endpoint = " + p.endpoint, "AllowedIPs = " + p.allowedIPs, "PersistentKeepalive = 25";
    match p.presharedKey {
      case Some(psk) =>
        PrintedSnoc(head, "PresharedKey = " + psk);
        TailText(head + ["PresharedKey = " + psk], a, b, c);
      case None =>
        TailText(head, a, b, c);
    }
  }

  lemma {:induction false} SplitPrinted(lines: seq<string>, rest: string)
    requires AllFree(lines, '\n')
    ensures Split(Printed(lines) + rest, '\n') == lines + Split(rest, '\n')
  {
    if lines == [] {
      assert Printed(lines) + rest == rest;
    } else {
      var n := |lines| - 1;
      assert Free(lines[n], '\n') && AllFree(lines[..n], '\n');
      PrintedSnoc(lines[..n], lines[n]);
      assert lines == lines[..n] + [lines[n]];
      hide Split, Printed, Free, AllFree;
      SplitPrinted(lines[..n], Line(lines[n]) + rest);
      SplitCons(lines[n], rest, '\n');
      assert Printed(lines[..n]) + Line(lines[n]) + rest == Printed(lines[..n]) + (Line(lines[n]) + rest);
    }
  }

  function After(line: string, tag: string): string {
    if |tag| <= |line| then line[|tag|..] else line
  }

  /** Reads the fields back from the lines. */
  function ParseConf(text: string): Option<WgConfParams> {
    ParseLines(Split(text, '\n'))
  }

  function ParseLines(l: seq<string>): Option<WgConfParams> {
    if |l| == 11 then
      Some(WgConfParams(After(l[1], "PrivateKey = "), After(l[2], "Address = "), After(l[3], "DNS = "),
                        After(l[6], "PublicKey = "), None, After(l[7], "Endpoint = "), After(l[8], "AllowedIPs = ")))
    else if |l| == 12 then
      Some(WgConfParams(After(l[1], "PrivateKey = "), After(l[2], "Address = "), After(l[3], "DNS = "),
                        After(l[6], "PublicKey = "), Some(After(l[7], "PresharedKey = ")),
                        After(l[8], "Endpoint = "), After(l[9], "AllowedIPs = ")))
    else None
  }

  lemma AfterTag(tag: string, field: string)
    ensures After(tag + field, tag) == field
  {
  }

  lemma TagKeepsFree(tag: string, field: string)
    requires Free(tag, '\n') && Free(field, '\n')
    ensures Free(tag + field, '\n')
  {
  }

  lemma LinesAreFree(p: WgConfParams)
    requires NewlineFree(p)
    ensures AllFree(ConfLines(p), '\n')
  {
    TagKeepsFree("PrivateKey = ", p.privateKey);
    TagKeepsFree("Address = ", p.address);
    TagKeepsFree("DNS = ", p.dns);
    TagKeepsFree("PublicKey = ", p.serverPubkey);
    if p.presharedKey.Some? {
      TagKeepsFree("PresharedKey = ", p.presharedKey.value);
    }
    TagKeepsFree("Endpoint = ", p.endpoint);
    TagKeepsFree("AllowedIPs = ", p.allowedIPs);
  }

  lemma ParseNewlineFree(p: WgConfParams)
    requires NewlineFree(p)
    ensures ParseConf(RenderConf(p)) == Some(p)
  {
    RenderIsLines(p);
    LinesAreFree(p);
    SplitPrinted(ConfLines(p), "");
    assert Printed(ConfLines(p)) + "" == Printed(ConfLines(p));
    AfterTag("PrivateKey = ", p.privateKey);
    AfterTag("Address = ", p.address);
    AfterTag("DNS = ", p.dns);
    AfterTag("PublicKey = ", p.serverPubkey);
    if p.presharedKey.Some? {
      AfterTag("PresharedKey = ", p.presharedKey.value);
    }
    AfterTag("Endpoint = ", p.endpoint);
    AfterTag("AllowedIPs = ", p.allowedIPs);
  }

  ghost function Newlines(s: string): nat {
    multiset(s)['\n']
  }

  lemma {:induction false} SplitCount(s: string)
    ensures |Split(s, '\n')| == Newlines(s) + 1
  {
    if s != [] {
      SplitCount(s[1..]);
      assert s == [s[0]] + s[1..];
    }
  }

  /** Printed lines hold one newline each, and more exactly when a line holds one itself. */
  lemma {:induction false} PrintedNewlines(lines: seq<string>)
    ensures Newlines(Printed(lines)) >= |lines|
    ensures Newlines(Printed(lines)) == |lines| <==> AllFree(lines, '\n')
  {
    if lines != [] {
      var n := |lines| - 1;
      var last := lines[n];
      PrintedNewlines(lines[..n]);
      assert Newlines(Line(last)) == Newlines(last) + 1;
      assert Newlines(Printed(lines)) == Newlines(Printed(lines[..n])) + Newlines(Line(last));
      assert Free(last, '\n') <==> Newlines(last) == 0;
      assert AllFree(lines, '\n') <==> AllFree(lines[..n], '\n') && Free(last, '\n') by {
        assert forall i :: 0 <= i < n ==> lines[..n][i] == lines[i];
        assert AllFree(lines, '\n') ==> Free(lines[n], '\n');
        assert AllFree(lines, '\n') ==> forall i :: 0 <= i < n ==> Free(lines[i], '\n');
      }
    }
  }

  lemma FreeLineHasFreeField(tag: string, field: string)
    requires Free(tag + field, '\n')
    ensures Free(field, '\n')
  {
    forall i | 0 <= i < |field| ensures field[i] != '\n' {
      assert (tag + field)[|tag| + i] == field[i];
    }
  }

  lemma FreeLinesHaveFreeFields(p: WgConfParams)
    requires AllFree(ConfLines(p), '\n')
    ensures NewlineFree(p)
  {
    var l, k := ConfLines(p), if p.presharedKey.Some? then 8 else 7;
    assert Free(l[1], '\n') && Free(l[2], '\n') && Free(l[3], '\n') && Free(l[6], '\n');
    assert Free(l[k], '\n') && Free(l[k + 1], '\n');
    FreeLineHasFreeField("PrivateKey = ", p.privateKey);
    FreeLineHasFreeField("Address = ", p.address);
    FreeLineHasFreeField("DNS = ", p.dns);
    FreeLineHasFreeField("PublicKey = ", p.serverPubkey);
    if p.presharedKey.Some? {
      assert Free(l[7], '\n');
      FreeLineHasFreeField("PresharedKey = ", p.presharedKey.value);
    }
    FreeLineHasFreeField("Endpoint = ", p.endpoint);
    FreeLineHasFreeField("AllowedIPs = ", p.allowedIPs);
  }

  /** A line of the section that the header line begins. */
  ghost predicate InSection(lines: seq<string>, header: string, line: string) {
    exists h, i :: 0 <= h < i < |lines| && lines[h] == header && lines[i] == line
                   && forall j :: h < j <= i ==> !IsHeader(lines[j])
  }

  predicate IsHeader(line: string) {
    line != [] && line[0] == '['
  }

  lemma InSectionAt(lines: seq<string>, h: nat, i: nat)
    requires h < i < |lines| && forall j :: h < j <= i ==> !IsHeader(lines[j])
    ensures InSection(lines, lines[h], lines[i])
  {
  }

  lemma LinesOf(p: WgConfParams)
    requires NewlineFree(p)
    ensures Split(RenderConf(p), '\n') == ConfLines(p) + [""]
    ensures var lines := Split(RenderConf(p), '\n');
            forall j :: 0 <= j < |lines| && j != 0 && j != 5 ==> !IsHeader(lines[j])
  {
    LinesAreFree(p);
    RenderIsLines(p);
    var lines := ConfLines(p);
    SplitPrinted(lines, "");
    assert Printed(lines) + "" == Printed(lines);
  }

  /** What the text says: each field on a line of its own, after its own name, in its own section, the
      key when there is one, and no other line but an empty one in between and the last. */
  lemma FieldsAreNamed(p: WgConfParams)
    requires NewlineFree(p)
    ensures var lines := Split(RenderConf(p), '\n');
            && InSection(lines, "[Interface]", "PrivateKey = " + p.privateKey)
            && InSection(lines, "[Interface]", "Address = " + p.address)
            && InSection(lines, "[Interface]", "DNS = " + p.dns)
            && InSection(lines, "[Peer]", "PublicKey = " + p.serverPubkey)
            && (p.presharedKey.Some? ==> InSection(lines, "[Peer]", "PresharedKey = " + p.presharedKey.value))
            && InSection(lines, "[Peer]", "Endpoint = " + p.endpoint)
            && InSection(lines, "[Peer]", "AllowedIPs = " + p.allowedIPs)
            && InSection(lines, "[Peer]", "PersistentKeepalive = 25")
            && |lines| == if p.presharedKey.Some? then 12 else 11
  {
    LinesOf(p);
    var lines := Split(RenderConf(p), '\n');
    LineTexts(p);
    hide ConfLines, RenderConf, Split, InSection, NewlineFree;
    Sections(lines);
  }

  lemma LineTexts(p: WgConfParams)
    ensures var l := ConfLines(p) + [""];
            && |l| == (if p.presharedKey.Some? then 12 else 11)
            && l[0] == "[Interface]" && l[1] == "PrivateKey = " + p.privateKey && l[2] == "Address = " + p.address
            && l[3] == "DNS = " + p.dns && l[5] == "[Peer]" && l[6] == "PublicKey = " + p.serverPubkey
            && (p.presharedKey.Some? ==> l[7] == "PresharedKey = " + p.presharedKey.value)
            && l[|l| - 4] == "Endpoint = " + p.endpoint && l[|l| - 3] == "AllowedIPs = " + p.allowedIPs
            && l[|l| - 2] == "PersistentKeepalive = 25"
  {
  }

  /** Every line but those of the headers is in the section of the header before it. */
  lemma Sections(lines: seq<string>)
    requires |lines| >= 11 && lines[0] == "[Interface]" && lines[5] == "[Peer]"
    requires forall j :: 0 <= j < |lines| && j != 0 && j != 5 ==> !IsHeader(lines[j])
    ensures InSection(lines, "[Interface]", lines[1]) && InSection(lines, "[Interface]", lines[2])
    ensures InSection(lines, "[Interface]", lines[3])
    ensures forall i :: 6 <= i < |lines| ==> InSection(lines, "[Peer]", lines[i])
  {
    hide InSection;
    InSectionAt(lines, 0, 1);
    InSectionAt(lines, 0, 2);
    InSectionAt(lines, 0, 3);
    forall i | 6 <= i < |lines| ensures InSection(lines, "[Peer]", lines[i]) {
      InSectionAt(lines, 5, i);
    }
  }

  /** `ParseConf` reads its parameters back exactly when no field holds a newline. */
  lemma ParseRendered(p: WgConfParams)
    ensures ParseConf(RenderConf(p)) == Some(p) <==> NewlineFree(p)
  {
    if NewlineFree(p) {
      ParseNewlineFree(p);
    } else {
      StrayNewlineAddsLines(p);
      ShapeOfParsed(Split(RenderConf(p), '\n'));
    }
  }

  lemma StrayNewlineAddsLines(p: WgConfParams)
    requires !NewlineFree(p)
    ensures |Split(RenderConf(p), '\n')| > if p.presharedKey.Some? then 12 else 11
  {
    var lines := ConfLines(p);
    assert |lines| == if p.presharedKey.Some? then 11 else 10;
    assert !AllFree(lines, '\n') by {
      if AllFree(lines, '\n') {
        FreeLinesHaveFreeFields(p);
      }
    }
    RenderIsLines(p);
    PrintedNewlines(lines);
    SplitCount(Printed(lines));
  }

  lemma ShapeOfParsed(lines: seq<string>)
    ensures ParseLines(lines).Some? && ParseLines(lines).value.presharedKey.None? ==> |lines| == 11
    ensures ParseLines(lines).Some? && ParseLines(lines).value.presharedKey.Some? ==> |lines| == 12
  {
  }

  /** A field with a newline in it can stand for a preshared key that is not there. */
  lemma NewlinesCanHideAKey(p: WgConfParams, psk: string)
    requires p.presharedKey.None?
    ensures var q := p.(serverPubkey := p.serverPubkey + "\nPresharedKey = " + psk);
            RenderConf(q) == RenderConf(p.(presharedKey := Some(psk))) && q != p.(presharedKey := Some(psk))
  {
    var r := p.(presharedKey := Some(psk));
    var q := p.(serverPubkey := p.serverPubkey + "\nPresharedKey = " + psk);
    var head := Line("[Interface]") + Line("PrivateKey = " + p.privateKey) + Line("Address = " + p.address)
                + Line("DNS = " + p.dns) + Line("") + Line("[Peer]");
    TwoLinesInOne(head, p.serverPubkey, psk);
    assert p.serverPubkey != q.serverPubkey;
  }

  /** Among newline-free parameters the printed text tells all: the printer has a left inverse. */
  lemma EqualTextsFromEqualParams(p: WgConfParams, q: WgConfParams)
    requires NewlineFree(p) && NewlineFree(q)
    ensures RenderConf(p) == RenderConf(q) <==> p == q
  {
    ParseNewlineFree(p);
    ParseNewlineFree(q);
  }

  /** Among all parameters, a newline-free set is the only one with its text exactly when it has no
      preshared key; the key's line can always be put inside another field instead. */
  lemma OnlyOneWithItsText(p: WgConfParams)
    requires NewlineFree(p)
    ensures (forall q :: RenderConf(q) == RenderConf(p) ==> q == p) <==> p.presharedKey.None?
  {
    if p.presharedKey.None? {
      forall q | RenderConf(q) == RenderConf(p) ensures q == p {
        TextWithoutKey(p, q);
      }
    } else {
      var bare := p.(presharedKey := None);
      NewlinesCanHideAKey(bare, p.presharedKey.value);
      assert p == bare.(presharedKey := p.presharedKey);
    }
  }

  lemma TextWithoutKey(p: WgConfParams, q: WgConfParams)
    requires NewlineFree(p) && p.presharedKey.None? && RenderConf(q) == RenderConf(p)
    ensures q == p
  {
    ParseNewlineFree(p);
    ShapeOfParsed(Split(RenderConf(p), '\n'));
    if NewlineFree(q) {
      ParseNewlineFree(q);
    } else {
      StrayNewlineAddsLines(q);
    }
  }

  lemma TwoLinesInOne(head: string, pubkey: string, psk: string)
    ensures head + Line("PublicKey = " + (pubkey + "\nPresharedKey = " + psk)) + ""
            == head + Line("PublicKey = " + pubkey) + Line("PresharedKey = " + psk)
  {
    var tag, mid := "PublicKey = ", "\nPresharedKey = ";
    assert mid == "\n" + "PresharedKey = ";
    OneAfterTheOther(head, tag, pubkey, "PresharedKey = ", psk);
  }

  lemma OneAfterTheOther(head: string, tag: string, a: string, tag2: string, b: string)
    ensures head + Line(tag + (a + ("\n" + tag2) + b)) + "" == head + Line(tag + a) + Line(tag2 + b)
  {
  }
}
