/** The `OperatingSystem` enum: each constant holds a list of partial names;
    a constant accepts a string containing any of them, and the host system
    is the first constant, in declaration order, accepting the lower-cased
    `os.name`, or `Unknown`. The `os.name` system property is a parameter. */
module HostOs {
  import opened Wrappers
  import opened Strings

  datatype OperatingSystem = MacOS | Linux | Windows | Unknown

  /** The constants in declaration order, as `values()` returns them. */
  const Values: seq<OperatingSystem> := [MacOS, Linux, Windows, Unknown]

  /** The partial names each constant is declared with: only `Unknown` has
      none, and no partial is empty. */
  function Partials(os: OperatingSystem): (r: seq<string>)
    ensures r == [] <==> os == Unknown
    ensures forall p :: p in r ==> p != []
  {
    match os
    case MacOS => ["mac"]
    case Linux => ["nix", "nux"]
    case Windows => ["win"]
    case Unknown => []
  }

  /** Every partial is already lower-case, so it matches the lower-cased
      name exactly where it matches case-insensitively. */
  lemma PartialsAreLowerCase(os: OperatingSystem)
    ensures forall p :: p in Partials(os) ==> ToLower(p) == p
  {
  }

  /** Some partial of `partials` occurs in `s` (`anyMatch(s::contains)`). */
  function AnyContained(partials: seq<string>, s: string): (r: bool)
    ensures r <==> exists p :: p in partials && Contains(s, p)
  {
    if partials == [] then false
    else
      var r := Contains(s, partials[0]) || AnyContained(partials[1..], s);
      assert r <==> exists p :: p in partials && Contains(s, p) by {
        assert partials[0] in partials;
        assert forall p :: p in partials[1..] ==> p in partials;
        if p :| p in partials && Contains(s, p) {
          assert p == partials[0] || p in partials[1..];
        }
      }
      r
  }

  /** `os.test(s)`. */
  function Test(os: OperatingSystem, s: string): (r: bool)
    ensures r <==> exists p :: p in Partials(os) && Contains(s, p)
  {
    AnyContained(Partials(os), s)
  }

  /** `oss[i]` accepts `s` and no earlier constant of `oss` does. */
  ghost predicate FirstAccepting(oss: seq<OperatingSystem>, s: string, i: int) {
    && 0 <= i < |oss|
    && Test(oss[i], s)
    && forall j :: 0 <= j < i ==> !Test(oss[j], s)
  }

  /** The first of `oss` whose test accepts `s` (`filter(...).findFirst()`). */
  function FirstMatch(oss: seq<OperatingSystem>, s: string): (r: Option<OperatingSystem>)
    ensures r.None? <==> forall i :: 0 <= i < |oss| ==> !Test(oss[i], s)
    ensures r.Some? ==> exists i :: FirstAccepting(oss, s, i) && oss[i] == r.value
  {
    if oss == [] then None
    else if Test(oss[0], s) then
      assert FirstAccepting(oss, s, 0);
      Some(oss[0])
    else
      var r := FirstMatch(oss[1..], s);
      assert r.Some? ==> exists i :: FirstAccepting(oss, s, i) && oss[i] == r.value by {
        if r.Some? {
          var i :| FirstAccepting(oss[1..], s, i) && oss[1..][i] == r.value;
          assert FirstAccepting(oss, s, i + 1);
        }
      }
      r
  }

  /** `getOs()`, with the value of `os.name` passed in. */
  function Classify(osName: string): (r: OperatingSystem)
    ensures var name := ToLower(osName);
      && (r == Unknown <==> forall i :: 0 <= i < |Values| ==> !Test(Values[i], name))
      && (r != Unknown ==> exists i :: FirstAccepting(Values, name, i) && Values[i] == r)
  {
    FirstMatch(Values, ToLower(osName)).GetOr(Unknown)
  }

  /** `Unknown` is declared without partials, so it accepts nothing. */
  lemma UnknownAcceptsNothing(s: string)
    ensures !Test(Unknown, s)
  {
  }

  /** The classification spelled out as a chain of tests on the lower-cased
      name, in declaration order. */
  function ClassifyByCases(osName: string): OperatingSystem {
    var name := ToLower(osName);
    if Contains(name, "mac") then MacOS
    else if Contains(name, "nix") || Contains(name, "nux") then Linux
    else if Contains(name, "win") then Windows
    else Unknown
  }

  /** Walking the constants with their partials is the same as the chain of
      cases. */
  lemma ClassifyIsByCases(osName: string)
    ensures Classify(osName) == ClassifyByCases(osName)
  {
    var name := ToLower(osName);
    assert Test(MacOS, name) == Contains(name, "mac");
    assert Test(Linux, name) == (Contains(name, "nix") || Contains(name, "nux"));
    assert Test(Windows, name) == Contains(name, "win");
    assert !Test(Unknown, name);
    assert Values[1..] == [Linux, Windows, Unknown];
    assert [Linux, Windows, Unknown][1..] == [Windows, Unknown];
    assert [Windows, Unknown][1..] == [Unknown];
    assert [Unknown][1..] == [];
    assert FirstMatch([Unknown], name) == None;
    assert FirstMatch([Windows, Unknown], name) ==
      if Test(Windows, name) then Some(Windows) else None;
    assert FirstMatch([Linux, Windows, Unknown], name) ==
      if Test(Linux, name) then Some(Linux) else FirstMatch([Windows, Unknown], name);
    assert FirstMatch(Values, name) ==
      if Test(MacOS, name) then Some(MacOS) else FirstMatch([Linux, Windows, Unknown], name);
  }

  /** A name containing "mac" (in any letter case) is MacOS, whatever else it
      contains. */
  lemma MacTakesPrecedence(osName: string)
    requires Contains(ToLower(osName), "mac")
    ensures Classify(osName) == MacOS
  {
    ClassifyIsByCases(osName);
  }

  /** The result is `Unknown` exactly when no partial name occurs in the
      lower-cased name. */
  lemma UnknownIffNoPartial(osName: string)
    ensures var name := ToLower(osName);
      Classify(osName) == Unknown <==>
        !Contains(name, "mac") && !Contains(name, "nix") && !Contains(name, "nux") && !Contains(name, "win")
  {
    ClassifyIsByCases(osName);
  }

  /** Names that differ only in ASCII letter case are classified alike. */
  lemma ClassifyIgnoresCase(a: string, b: string)
    requires EqualIgnoringCase(a, b)
    ensures Classify(a) == Classify(b)
  {
    ToLowerIgnoresCase(a, b);
  }

  /** "Mac OS X" is MacOS. */
  lemma ClassifyMacOsX()
    ensures Classify("Mac OS X") == MacOS
  {
    assert ToLower("Mac OS X")[..3] == "mac";
    MacTakesPrecedence("Mac OS X");
  }

  /** "Windows 10" is Windows. */
  lemma ClassifyWindows10()
    ensures Classify("Windows 10") == Windows
  {
    LowerWindows10();
    WindowsPartials();
    ClassifyIsByCases("Windows 10");
  }

  lemma LowerWindows10()
    ensures ToLower("Windows 10") == "windows 10"
  {
  }

  lemma WindowsPartials()
    ensures !Contains("windows 10", "mac")
    ensures !Contains("windows 10", "nix") && !Contains("windows 10", "nux")
    ensures Contains("windows 10", "win")
  {
    var name := "windows 10";
    assert !Contains(name, "mac") by {
      MissingCharNotContained(name, "mac", 'm');
    }
    assert !Contains(name, "nix") && !Contains(name, "nux") by {
      assert 'x' !in name;
      MissingCharNotContained(name, "nix", 'x');
      MissingCharNotContained(name, "nux", 'x');
    }
    assert Contains(name, "win") by {
      assert name[..3] == "win";
    }
  }

  /** "Linux" is Linux. */
  lemma ClassifyLinux()
    ensures Classify("Linux") == Linux
  {
    var name := ToLower("Linux");
    assert name == "linux";
    MissingCharNotContained(name, "mac", 'm');
    assert name[2..5] == "nux" by {
      assert name[2] == 'n' && name[3] == 'u' && name[4] == 'x';
    }
    ClassifyIsByCases("Linux");
  }

  /** "SunOS" is Unknown. */
  lemma ClassifySunOs()
    ensures Classify("SunOS") == Unknown
  {
    var name := ToLower("SunOS");
    assert name == "sunos";
    MissingCharNotContained(name, "mac", 'm');
    MissingCharNotContained(name, "nix", 'x');
    MissingCharNotContained(name, "nux", 'x');
    MissingCharNotContained(name, "win", 'w');
    ClassifyIsByCases("SunOS");
  }
}
