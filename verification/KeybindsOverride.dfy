/** What configuration files can and cannot do to the keys in force. */
module KeybindsOverride {
  import opened Prelude
  import opened Scanning
  import opened Modifiers
  import opened Keybinds
  import opened KeybindsLoading
  import opened KeybindsRoundTrip

  /** The registry after initialisation with a printed file. */
  function Configured(es: seq<Entry>, host: Host): seq<Binding> {
    DEFAULTS + Load(Contents(PrintFile(es)), host).added
  }

  lemma {:induction false} BindingsForAt(es: seq<Entry>, host: Host, i: nat)
    requires i < |es|
    ensures |BindingsFor(es, host)| == |es| && BindingsFor(es, host)[i] == BindingFor(es[i], host)
    ensures BindingsFor(es, host)[..i] == BindingsFor(es[..i], host)
  {
    if |es| == 1 {
      assert es[..0] == [];
    } else if i == 0 {
      BindingsForAt(es[1..], host, 0);
      assert es[..0] == [];
    } else {
      BindingsForAt(es[1..], host, i - 1);
      assert es[..i][1..] == es[1..][..i - 1];
    }
  }

  /** An entry of a file takes effect exactly when neither a default nor an earlier entry binds its
      combination: files extend the bindings in force and override none. */
  lemma EntryWorksIff(es: seq<Entry>, host: Host, i: nat)
    requires Plenty(host) && AllKnown(es, host) && |PrintFile(es)| <= MAX_SIZE && i < |es|
    ensures Lookup(Configured(es, host), es[i].modifiers, host.keysymOf(es[i].key)) == Some(|DEFAULTS| + i)
            <==> !Bound(DEFAULTS + BindingsFor(es[..i], host), es[i].modifiers, host.keysymOf(es[i].key))
  {
    RoundTrip(es, host);
    BindingsForAt(es, host, i);
    ConfiguredBindingWorksIff(DEFAULTS, BindingsFor(es, host), i);
  }

  /** The size of a file with one entry. */
  lemma OneEntrySize(e: Entry)
    requires e.modifiers == {Logo} && e.command == None
    ensures |PrintFile([e])| <= 100 + |e.key| + |ActionName(e.action)|
  {
    var action := Str("action", ": " + Str(ActionName(e.action), "}"));
    assert PrintFields(e) == Str("key", ": " + Str(e.key, ", " + action));
    assert Names(e.modifiers) == ["super"];
    var mods := List(["super"], "], " + PrintFields(e));
    assert mods == Str("super", "], " + PrintFields(e));
    assert PrintAll([e], "]}\n") == "  " + (PrintObject(e) + ("\n" + "]}\n"));
  }

  lemma OneEntryLoads(e: Entry, host: Host)
    requires Plenty(host) && Printable(e) && e.modifiers == {Logo} && e.command == None
    requires host.keysymOf(e.key) != 0 && |e.key| <= 100
    ensures Load(Contents(PrintFile([e])), host) == Loaded(Success, [BindingFor(e, host)])
  {
    OneEntrySize(e);
    RoundTrip([e], host);
    assert BindingsFor([e], host) == [BindingFor(e, host)];
  }

  /** A file that rebinds Super+L to closing the window is loaded, and Super+L still locks the
      screen. */
  lemma OverrideIsIgnored(es: seq<Entry>, host: Host)
    requires es == [Entry({Logo}, "l", CloseWindow, None)]
    requires Plenty(host) && host.keysymOf("l") == 0x6c
    ensures Load(Contents(PrintFile(es)), host) == Loaded(Success, [Binding({Logo}, 0x6c, CloseWindow, None)])
    ensures Lookup(Configured(es, host), {Logo}, 0x6c) == Some(2) && Configured(es, host)[2].action == LockScreen
  {
    OneEntryLoads(es[0], host);
    assert es == [es[0]];
    DefaultsSurvive(Contents(PrintFile(es)), host, 2);
  }

  // ---------------------------------------------------------------------------------------
  // A file that breaks off
  // ---------------------------------------------------------------------------------------

  lemma UnclosedToEnd(s: string)
    requires s != [] && s[0] == '{' && '}' !in s
    ensures ObjectEnd(s) == |s|
  {
    ObjectEndFacts(s);
    var n := ObjectEnd(s);
    assert s[..n][0] == '{' && '}' !in s[..n];
  }

  lemma FirstOverruns(s: string, obj: string, host: Host)
    requires AfterGap(s) == obj && obj != [] && obj[0] == '{' && ObjectEnd(obj) == |obj|
    requires ParseObject(obj, "", host, 0).Overrun?
    ensures LoadObjects(s, host, 0) == Loaded(Overran, [])
  {
    assert obj[..|obj|] == obj && obj[|obj|..] == "";
  }

  lemma OverrunsThere(obj: string, host: Host)
    requires obj != [] && obj[0] == '{' && '}' !in obj && ParseObject(obj, "", host, 0).Overrun?
    ensures LoadObjects("\n" + obj, host, 0) == Loaded(Overran, [])
  {
    UnclosedToEnd(obj);
    GapDropped("\n", obj);
    FirstOverruns("\n" + obj, obj, host);
  }

  /** An object that ends behind the first comma of its modifiers array. */
  lemma BrokenObject(obj: string, host: Host)
    requires obj == "{" + Str("modifiers", ": [" + ",")
    ensures ParseObject(obj, "", host, 0).Overrun?
  {
    ModifiersAt(",");
    ColonArray(",");
    assert ","[1..] == "" && " [" + "," + "" == " [" + ",";
  }

  lemma NoBraces(obj: string)
    requires obj == "{" + Str("modifiers", ": [" + ",")
    ensures '}' !in obj && '\0' !in obj
  {
  }

  /** A file on which the parser leaves the text: it breaks off there. */
  lemma BrokenFileOverruns(host: Host)
    ensures var obj := "{" + Str("modifiers", ": [" + ",");
            Load(Contents("{" + Str("bindings", ": [\n" + obj)), host).status == Overran
  {
    var obj := "{" + Str("modifiers", ": [" + ",");
    NoBraces(obj);
    NoNulStr("{", "bindings", ": [\n" + obj);
    ArrayFound(obj);
    BrokenObject(obj, host);
    OverrunsThere(obj, host);
    LoadText("{" + Str("bindings", ": [\n" + obj), "\n" + obj, host);
  }
}
