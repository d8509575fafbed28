/**
 * Departments (src/controllers/departmentController.ts): the admission-number
 * format derived from a preview such as `ECNS/AD/2024/001`, and the handlers
 * that create a department, rename it and set its format. The school and
 * department tables are the fields of a store; the database's fresh id is a
 * parameter.
 */
module DepartmentController {
  import opened Text

  // ------------------------------------------------------------ admission format

  /** `formatPreview.split("/")[0]`: the text before the first `/`, or all of it. */
  function AdmissionPrefix(preview: string): (r: string)
    ensures '/' !in r && |r| <= |preview| && preview[..|r|] == r
  {
    FirstSegment(preview, '/')
  }

  /** The pattern text stored for a prefix: `^<prefix>\/AD\/\d{4}\/\d{3}$`. */
  function AdmissionRegex(prefix: string): (r: string)
    ensures |r| == |prefix| + 20 && r[0] == '^' && r[|r| - 1] == '$'
  {
    "^" + prefix + "\\/AD\\/\\d{4}\\/\\d{3}$"
  }

  /**
   * What the stored pattern accepts, reading the prefix literally: the whole
   * string is the prefix, `/AD/`, four decimal digits, `/` and three digits.
   */
  predicate MatchesFormat(prefix: string, s: string)
    ensures MatchesFormat(prefix, s) ==> |s| == |prefix| + 12 && s[..|prefix|] == prefix
  {
    var p := |prefix|;
    |s| == p + 12 && s[..p] == prefix && s[p..p + 4] == "/AD/"
    && AllDigits(s[p + 4..p + 8]) && s[p + 8] == '/' && AllDigits(s[p + 9..])
  }

  /** An admission number in the shape the format describes. */
  function AdmissionNumber(prefix: string, year: string, serial: string): string {
    prefix + "/AD/" + year + "/" + serial
  }

  /** The prefix holds no `/`; it is all of the preview, or the preview continues with `/`. */
  lemma PrefixBeforeFirstSlash(preview: string)
    ensures var p := AdmissionPrefix(preview);
      '/' !in p && preview[..|p|] == p
    ensures '/' !in preview ==> AdmissionPrefix(preview) == preview
    ensures '/' in preview ==>
      |AdmissionPrefix(preview)| < |preview| && preview[|AdmissionPrefix(preview)|] == '/'
  {
  }

  /** The stored text is `^`, the prefix, and the fixed tail of the pattern. */
  lemma RegexShape(prefix: string)
    ensures var r := AdmissionRegex(prefix);
      |r| == |prefix| + 20 && r[0] == '^' && r[1..|prefix| + 1] == prefix
      && r[|prefix| + 1..] == "\\/AD\\/\\d{4}\\/\\d{3}$"
  {
  }

  /** The pattern text determines the prefix it was made from. */
  lemma RegexInjective(p: string, q: string)
    requires AdmissionRegex(p) == AdmissionRegex(q)
    ensures p == q
  {
    RegexShape(p);
    RegexShape(q);
    assert |p| == |q|;
    assert p == AdmissionRegex(p)[1..|p| + 1];
  }

  /** Every string the pattern accepts is an admission number with that prefix. */
  lemma MatchesAreAdmissionNumbers(prefix: string, s: string)
    requires MatchesFormat(prefix, s)
    ensures var p := |prefix|;
      s == AdmissionNumber(prefix, s[p + 4..p + 8], s[p + 9..])
  {
    var p := |prefix|;
    assert s == s[..p] + s[p..p + 4] + s[p + 4..p + 8] + [s[p + 8]] + s[p + 9..];
  }

  /**
   * Round trip: a preview of the documented shape (a prefix without `/`, four
   * digits, three digits) yields its own prefix, and the derived pattern
   * accepts the preview itself.
   */
  lemma PreviewMatchesItsFormat(prefix: string, year: string, serial: string)
    requires '/' !in prefix
    requires |year| == 4 && AllDigits(year) && |serial| == 3 && AllDigits(serial)
    ensures AdmissionPrefix(AdmissionNumber(prefix, year, serial)) == prefix
    ensures MatchesFormat(prefix, AdmissionNumber(prefix, year, serial))
  {
    var s := AdmissionNumber(prefix, year, serial);
    var rest := "/AD/" + year + "/" + serial;
    assert s == prefix + rest;
    FirstSegmentOfPrefix(prefix, rest);
    var p := |prefix|;
    assert s[p + 4..p + 8] == year;
    assert s[p + 9..] == serial;
  }

  /** The first segment of `a + b`, when `a` holds no `/` and `b` starts with one, is `a`. */
  lemma {:induction false} FirstSegmentOfPrefix(a: string, b: string)
    requires '/' !in a && |b| > 0 && b[0] == '/'
    ensures FirstSegment(a + b, '/') == a
  {
    if a != [] {
      assert (a + b)[1..] == a[1..] + b;
      FirstSegmentOfPrefix(a[1..], b);
    }
  }

  /** Conversely, a string the derived pattern accepts has that prefix again. */
  lemma MatchedNumberHasPrefix(prefix: string, s: string)
    requires '/' !in prefix && MatchesFormat(prefix, s)
    ensures AdmissionPrefix(s) == prefix
  {
    var p := |prefix|;
    assert s == prefix + s[p..];
    FirstSegmentOfPrefix(prefix, s[p..]);
  }

  /** The documented example: `ECNS/AD/2024/001` has the prefix `ECNS` and the ECNS pattern accepts it. */
  lemma EcnsExample()
    ensures AdmissionPrefix("ECNS/AD/2024/001") == "ECNS"
    ensures MatchesFormat("ECNS", "ECNS/AD/2024/001")
  {
    var s := "ECNS/AD/2024/001";
    var year, serial := "2024", "001";
    assert year[0] == '2' && year[1] == '0' && year[2] == '2' && year[3] == '4';
    assert serial[0] == '0' && serial[1] == '0' && serial[2] == '1';
    assert s == AdmissionNumber("ECNS", year, serial);
    PreviewMatchesItsFormat("ECNS", year, serial);
  }

  /** The pattern stored for the example preview, whose prefix is `ECNS`. */
  lemma EcnsPattern()
    ensures AdmissionRegex("ECNS") == "^ECNS\\/AD\\/\\d{4}\\/\\d{3}$"
  {
    assert "^" + "ECNS" == "^ECNS";
  }

  /** A two-digit year is not accepted. */
  lemma ShortYearRejected()
    ensures !MatchesFormat("ECNS", "ECNS/AD/24/001")
  {
  }

  // ------------------------------------------------------------ departments

  /** A stored department (the fields these handlers read or write). */
  datatype Department = Department(
    id: string,
    name: string,
    code: Option<string>,
    schoolId: int,
    admissionFormatPreview: Option<string>,
    admissionFormatRegex: Option<string>)

  /** A handler's response: a status, a message and, on success, the department. */
  datatype Response =
    | Done(status: nat, message: string, department: Department)
    | Failed(status: nat, message: string)

  /** `data: { name, code }`: an absent field is left as it was. */
  function Renamed(d: Department, name: Option<string>, code: Option<string>): Department {
    d.(name := if name.Some? then name.value else d.name,
       code := if code.Some? then code else d.code)
  }

  /** `data: { admissionFormatPreview, admissionFormatRegex }` */
  function WithFormat(d: Department, preview: string): Department {
    d.(admissionFormatPreview := Some(preview),
       admissionFormatRegex := Some(AdmissionRegex(AdmissionPrefix(preview))))
  }

  /** The schools and departments, keyed by id. */
  class DepartmentStore {
    var schools: set<int>
    var departments: map<string, Department>

    /** Every department is filed under its own id and belongs to a known school. */
    predicate Valid()
      reads this
    {
      forall id :: id in departments ==>
        departments[id].id == id && departments[id].schoolId in schools
    }

    constructor (schoolIds: set<int>)
      ensures schools == schoolIds && departments == map[]
      ensures Valid()
    {
      schools := schoolIds;
      departments := map[];
    }

    /**
     * `createDepartment`: 400 without a name or a school id, 404 for an unknown
     * school, otherwise 201 with the new department. `newId` is the id the
     * database assigns; one already taken fails the insert (500).
     */
    method CreateDepartment(name: Option<string>, code: Option<string>, schoolId: Option<int>, newId: string)
      returns (r: Response)
      modifies this
      ensures schools == old(schools)
      ensures !(Truthy(name) && TruthyNumber(schoolId)) ==>
        r == Failed(400, "Name and schoolId are required") && departments == old(departments)
      ensures Truthy(name) && TruthyNumber(schoolId) && schoolId.value !in schools ==>
        r == Failed(404, "School not found") && departments == old(departments)
      ensures Truthy(name) && TruthyNumber(schoolId) && schoolId.value in schools && newId in old(departments) ==>
        r == Failed(500, "Failed to create department") && departments == old(departments)
      ensures Truthy(name) && TruthyNumber(schoolId) && schoolId.value in schools && newId !in old(departments) ==>
        var d := Department(newId, name.value, code, schoolId.value, None, None);
        r == Done(201, "Department created successfully", d) && departments == old(departments)[newId := d]
      ensures old(Valid()) ==> Valid()
    {
      if !Truthy(name) || !TruthyNumber(schoolId) {
        return Failed(400, "Name and schoolId are required");
      }
      if schoolId.value !in schools {
        return Failed(404, "School not found");
      }
      if newId in departments {
        return Failed(500, "Failed to create department");
      }
      var d := Department(newId, name.value, code, schoolId.value, None, None);
      departments := departments[newId := d];
      r := Done(201, "Department created successfully", d);
    }

    /** `updateDepartment`: writes the given name and code; an unknown id fails (500). */
    method UpdateDepartment(id: string, name: Option<string>, code: Option<string>) returns (r: Response)
      modifies this
      ensures schools == old(schools)
      ensures id !in old(departments) ==>
        r == Failed(500, "Failed to update department") && departments == old(departments)
      ensures id in old(departments) ==>
        var d := Renamed(old(departments)[id], name, code);
        r == Done(200, "Department updated successfully", d) && departments == old(departments)[id := d]
      ensures old(Valid()) ==> Valid()
    {
      if id !in departments {
        return Failed(500, "Failed to update department");
      }
      var d := Renamed(departments[id], name, code);
      departments := departments[id := d];
      r := Done(200, "Department updated successfully", d);
    }

    /**
     * `setAdmissionFormat`: 400 without a department id or a preview; an
     * unknown department fails (500); otherwise the preview and its pattern
     * are stored.
     */
    method SetAdmissionFormat(departmentId: Option<string>, formatPreview: Option<string>) returns (r: Response)
      modifies this
      ensures schools == old(schools)
      ensures !(Truthy(departmentId) && Truthy(formatPreview)) ==>
        r == Failed(400, "Missing required fields") && departments == old(departments)
      ensures Truthy(departmentId) && Truthy(formatPreview) && departmentId.value !in old(departments) ==>
        r == Failed(500, "Error setting format") && departments == old(departments)
      ensures Truthy(departmentId) && Truthy(formatPreview) && departmentId.value in old(departments) ==>
        var d := WithFormat(old(departments)[departmentId.value], formatPreview.value);
        r == Done(200, "Admission format set successfully", d)
        && departments == old(departments)[departmentId.value := d]
      ensures old(Valid()) ==> Valid()
    {
      if !Truthy(departmentId) || !Truthy(formatPreview) {
        return Failed(400, "Missing required fields");
      }
      var id := departmentId.value;
      if id !in departments {
        return Failed(500, "Error setting format");
      }
      var d := WithFormat(departments[id], formatPreview.value);
      departments := departments[id := d];
      r := Done(200, "Admission format set successfully", d);
    }
  }

  // ------------------------------------------------------------ update properties

  /** Renaming writes only the name and the code, and only those given. */
  lemma RenameWritesOnlyNameAndCode(d: Department, name: Option<string>, code: Option<string>)
    ensures var e := Renamed(d, name, code);
      e.id == d.id && e.schoolId == d.schoolId
      && e.admissionFormatPreview == d.admissionFormatPreview
      && e.admissionFormatRegex == d.admissionFormatRegex
      && (name.Some? ==> e.name == name.value) && (name.None? ==> e.name == d.name)
      && (code.Some? ==> e.code == code) && (code.None? ==> e.code == d.code)
  {
  }

  /** An empty update body leaves the department as it was. */
  lemma EmptyRenameIsIdentity(d: Department)
    ensures Renamed(d, None, None) == d
  {
  }

  /**
   * Setting the format writes only the preview and its pattern; when the
   * preview has the documented shape the stored pattern accepts it.
   */
  lemma FormatWritesOnlyFormat(d: Department, preview: string)
    ensures var e := WithFormat(d, preview);
      e.id == d.id && e.name == d.name && e.code == d.code && e.schoolId == d.schoolId
      && e.admissionFormatPreview == Some(preview)
      && e.admissionFormatRegex == Some(AdmissionRegex(AdmissionPrefix(preview)))
  {
  }

  /** Setting the same preview twice is the same as setting it once; a later preview replaces an earlier one. */
  lemma FormatLastWins(d: Department, p1: string, p2: string)
    ensures WithFormat(WithFormat(d, p1), p2) == WithFormat(d, p2)
  {
  }

  /** A stored preview of the documented shape is accepted by the pattern stored with it. */
  lemma StoredFormatAcceptsPreview(d: Department, prefix: string, year: string, serial: string)
    requires '/' !in prefix
    requires |year| == 4 && AllDigits(year) && |serial| == 3 && AllDigits(serial)
    ensures var e := WithFormat(d, AdmissionNumber(prefix, year, serial));
      e.admissionFormatRegex == Some(AdmissionRegex(prefix))
      && MatchesFormat(prefix, e.admissionFormatPreview.value)
  {
    PreviewMatchesItsFormat(prefix, year, serial);
  }
}
