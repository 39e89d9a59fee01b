/** Path-template substitution (subPath.py). The template tokens YEAR, MONTH,
    SITEID and DATE are replaced, in that order, by the matching attribute of
    the caller's object, or deleted when the object lacks the attribute. */
module SubPaths {
  import opened Text

  /** The four attributes `sub_path` may read; `None` is an absent attribute.
      Each present value is the attribute already rendered by `str(...)`. */
  datatype Attributes = Attributes(
    year: Option<string>,
    month: Option<string>,
    siteID: Option<string>,
    dateStr: Option<string>)

  /** One step: replace `token` by the attribute, or by nothing when it is absent. */
  function Substitute(path: string, token: string, value: Option<string>): string {
    ReplaceAll(path, token, if value.Some? then value.value else "")
  }

  /** `sub_path(class_object, path_string)`. */
  function SubPath(attrs: Attributes, path: string): string {
    var afterYear := Substitute(path, "YEAR", attrs.year);
    var afterMonth := Substitute(afterYear, "MONTH", attrs.month);
    var afterSite := Substitute(afterMonth, "SITEID", attrs.siteID);
    Substitute(afterSite, "DATE", attrs.dateStr)
  }

  predicate HasNoToken(s: string) {
    !Contains(s, "YEAR") && !Contains(s, "MONTH") && !Contains(s, "SITEID") && !Contains(s, "DATE")
  }

  /** A path containing none of the four tokens comes back unchanged,
      whatever attributes the object has. */
  lemma NoTokenUnchanged(attrs: Attributes, path: string)
    requires HasNoToken(path)
    ensures SubPath(attrs, path) == path
  {
    ReplaceAllAbsent(path, "YEAR", if attrs.year.Some? then attrs.year.value else "");
    ReplaceAllAbsent(path, "MONTH", if attrs.month.Some? then attrs.month.value else "");
    ReplaceAllAbsent(path, "SITEID", if attrs.siteID.Some? then attrs.siteID.value else "");
    ReplaceAllAbsent(path, "DATE", if attrs.dateStr.Some? then attrs.dateStr.value else "");
  }

  /** A template holding only the YEAR token renders as the year when the object
      has one (and the year text holds no later token), and as "" otherwise. */
  lemma YearOnly(attrs: Attributes)
    requires attrs.year.Some? ==> HasNoToken(attrs.year.value)
    ensures SubPath(attrs, "YEAR") == if attrs.year.Some? then attrs.year.value else ""
  {
    var y := if attrs.year.Some? then attrs.year.value else "";
    assert "YEAR"[..4] == "YEAR";
    assert "YEAR"[4..] == "";
    assert ReplaceAll("", "YEAR", y) == "";
    assert Substitute("YEAR", "YEAR", attrs.year) == y;
    if attrs.year.None? {
      assert !Contains("", "MONTH") && !Contains("", "SITEID") && !Contains("", "DATE");
    }
    ReplaceAllAbsent(y, "MONTH", if attrs.month.Some? then attrs.month.value else "");
    ReplaceAllAbsent(y, "SITEID", if attrs.siteID.Some? then attrs.siteID.value else "");
    ReplaceAllAbsent(y, "DATE", if attrs.dateStr.Some? then attrs.dateStr.value else "");
  }

  /** The steps see each other's output: a site ID that itself contains the
      DATE token has that token replaced by the date string in the last step. */
  lemma LaterStepsSeeEarlierOutput()
    ensures SubPath(Attributes(None, None, Some("DATE"), Some("d")), "SITEID") == "d"
  {
    assert !Contains("SITEID", "YEAR") by {
      forall i | 0 <= i <= 6 ensures !OccursAt("SITEID", "YEAR", i) {
        if i + 4 <= 6 { assert "SITEID"[i..i + 4][0] != 'Y'; }
      }
    }
    ReplaceAllAbsent("SITEID", "YEAR", "");
    assert !Contains("SITEID", "MONTH") by {
      forall i | 0 <= i <= 6 ensures !OccursAt("SITEID", "MONTH", i) {
        if i + 5 <= 6 { assert "SITEID"[i..i + 5][0] != 'M'; }
      }
    }
    ReplaceAllAbsent("SITEID", "MONTH", "");
    assert "SITEID"[..6] == "SITEID";
    assert "SITEID"[6..] == "";
    assert ReplaceAll("", "SITEID", "DATE") == "";
    assert Substitute("SITEID", "SITEID", Some("DATE")) == "DATE";
    assert "DATE"[..4] == "DATE";
    assert "DATE"[4..] == "";
    assert ReplaceAll("", "DATE", "d") == "";
  }

  /** A positional argument at a call of `sub_path`: the caller's object, or
      a string. A string has none of the four attributes. */
  datatype Arg = ObjectArg(attrs: Attributes) | StringArg(s: string)

  const NoAttributes := Attributes(None, None, None, None)

  const MissingPathString := "TypeError: sub_path() missing 1 required positional argument: 'path_string'"

  function AttributesOf(a: Arg): Attributes {
    if a.ObjectArg? then a.attrs else NoAttributes
  }

  /** `sub_path(*args)`: Python binds the arguments to `(class_object,
      path_string)`, so a call with one argument raises TypeError before the
      body runs, and a path that is not a string has no `replace`. */
  function SubPathCall(args: seq<Arg>): (r: Result<string>)
    ensures |args| < 2 ==> r == Err(MissingPathString)
    ensures |args| == 2 && args[1].StringArg? ==> r == Ok(SubPath(AttributesOf(args[0]), args[1].s))
    ensures r.Ok? <==> |args| == 2 && args[1].StringArg?
  {
    if |args| < 2 then Err(MissingPathString)
    else if |args| > 2 then Err("TypeError: sub_path() takes 2 positional arguments")
    else if args[1].ObjectArg? then Err("AttributeError: object has no attribute 'replace'")
    else Ok(SubPath(AttributesOf(args[0]), args[1].s))
  }
}
