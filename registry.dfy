/** The category registry: the ordered table of routing categories, each with
    its keywords, its contact email and an optional link. Python's dict keeps
    insertion order, so a sequence in that order stands for it. */
module Registry {
  import opened Wrappers
  import opened Text

  /** A keyword as the registry holds it: non-empty and free of commas (so
      that keywords joined with ", " can be told apart again). */
  type Keyword = k: string | ValidKeyword(k) witness "a"

  datatype CategoryRule = Rule(name: string, keywords: seq<Keyword>, email: Option<string>, url: Option<string>)

  /** The catch-all category used when nothing else applies. */
  const CatchAll: string := "Other"

  // The entries of the registry, one constant per category.

  const BonafideCertificate: CategoryRule :=
    Rule("Bonafide Certificate",
         ["bonafide", "education loan", "passport", "scholarship", "higher studies", "course continuing"],
         Some("compliance.cse@kiit.ac.in"), None)

  const RailwayConcessionPass: CategoryRule :=
    Rule("Railway Concession Pass",
         ["railway pass", "train concession"],
         Some("compliance.cse@kiit.ac.in"), None)

  const GradeReportsCertificates: CategoryRule :=
    Rule("Grade Reports / Certificates",
         ["grade report", "provisional degree", "degree certificate", "conduct certificate", "college leaving"],
         Some("compliance.cse@kiit.ac.in"), None)

  const OpenElectivesOrDeptElectives: CategoryRule :=
    Rule("Open Electives or Dept Electives",
         ["open elective", "department elective"],
         Some("compliance.cse@kiit.ac.in"), None)

  const RankNoBacklogCertificate: CategoryRule :=
    Rule("Rank / No Backlog Certificate",
         ["rank certificate", "no backlog certificate"],
         Some("compliance.cse@kiit.ac.in"), None)

  const GATECATSignature: CategoryRule :=
    Rule("GATE / CAT Signature",
         ["gate signature", "cat signature"],
         Some("compliance.cse@kiit.ac.in"), None)

  const RegistrationCard: CategoryRule :=
    Rule("Registration Card",
         ["registration card"],
         Some("Not Available - Contact Mrs. Tunalata Nayak (8144967820)"), None)

  const MarksGradesDiscrepancy202223MTechPhD: CategoryRule :=
    Rule("Marks/Grades Discrepancy (2022-23, M.Tech, PhD)",
         ["marks", "grades", "answer sheet discrepancy", "2022", "2023", "mtech", "phd"],
         Some("acoe.cese@kiit.ac.in"), None)

  const MarksGradesDiscrepancy202425: CategoryRule :=
    Rule("Marks/Grades Discrepancy (2024-25)",
         ["marks", "grades", "answer sheet discrepancy", "2024", "2025"],
         Some("acoe.csit@kiit.ac.in"), None)

  const CorrectionScholarship: CategoryRule :=
    Rule("Correction / Scholarship",
         ["correction", "dob", "name", "address change", "scholarship"],
         Some("swapna.mohanty@kiit.ac.in"), None)

  const FeeExtension: CategoryRule :=
    Rule("Fee Extension",
         ["fee extension", "academic fee", "hostel fee"],
         Some("director.admission@kiit.ac.in"), None)

  const DemandLetterForLoan: CategoryRule :=
    Rule("Demand Letter for Loan",
         ["demand letter", "loan"],
         Some("admission@kiit.ac.in"), None)

  const LaptopIssues: CategoryRule :=
    Rule("Laptop Issues",
         ["laptop", "laptop delivery", "laptop technical"],
         Some("laptop.service@kiit.ac.in"), None)

  const EmailGroupIssues: CategoryRule :=
    Rule("Email Group Issues",
         ["group email", "not receiving mail"],
         Some("helpdesk@kiit.ac.in"), None)

  const LibraryIssues: CategoryRule :=
    Rule("Library Issues",
         ["library", "library access", "library books"],
         Some("beda_sahoo@kiit.ac.in"), None)

  const FeeSAP: CategoryRule :=
    Rule("Fee & SAP",
         ["fee", "sap update", "fee mismatch"],
         Some("manoj.meher@kiit.ac.in"), None)

  const HostelIssues: CategoryRule :=
    Rule("Hostel Issues",
         ["hostel", "room", "allotment", "accommodation", "kp25"],
         Some("hostel@kiit.ac.in"), None)

  const PlacementInternship: CategoryRule :=
    Rule("Placement / Internship",
         ["placement", "internship", "no objection", "training"],
         Some("tnp.scs@kiit.ac.in"), None)

  const Sports: CategoryRule :=
    Rule("Sports",
         ["sports", "gym", "fitness", "recreational"],
         Some("sports.kiit@gmail.com"), Some("https://kiit.ac.in/campuslife/sports/"))

  const KSAC: CategoryRule :=
    Rule("KSAC",
         ["ksac", "student activity", "club"],
         Some("shyam.behura@kids.ac.in"), Some("https://ksac.kiit.ac.in/"))

  const GradeSheetDownload: CategoryRule :=
    Rule("Grade Sheet Download",
         ["grade sheet", "download"],
         Some("slcm.kiit@kiit.ac.in"), None)

  const GuestHouse: CategoryRule :=
    Rule("Guest House",
         ["guest house"],
         Some("kiitguesthouse@kiit.ac.in"), None)

  const MentorInfo: CategoryRule :=
    Rule("Mentor Info",
         ["mentor", "sap"],
         None, Some("https://kiit.ac.in/sap/know-your-mentor/"))

  const Counselling: CategoryRule :=
    Rule("Counselling",
         ["counselling", "support", "anxiety", "depression", "stress"],
         Some("student.counselling@kiit.ac.in"), Some("https://kiit.ac.in/student-counselling/"))

  const CyberHelpdesk: CategoryRule :=
    Rule("Cyber Helpdesk",
         ["cyber", "phishing", "scam"],
         Some("cyber.helpline@kiit.ac.in"), None)

  const SAPHelpdesk: CategoryRule :=
    Rule("SAP Helpdesk",
         ["sap help", "student portal"],
         Some("helpdesksap.eam@kiit.ac.in"), None)

  const CareerPlacement: CategoryRule :=
    Rule("Career Placement",
         ["career", "placement"],
         Some("placement@kiit.ac.in"), None)

  const NCCNSSRedCross: CategoryRule :=
    Rule("NCC / NSS / Red Cross",
         ["ncc", "nss", "red cross", "community"],
         Some("kiit.nss@kiit.ac.in"), None)

  const StudentSupport: CategoryRule :=
    Rule("Student Support",
         ["club", "student support"],
         Some("studentssupport@kiit.ac.in"), Some("https://kiit.ac.in/students/"))

  const GrievanceRedressal: CategoryRule :=
    Rule("Grievance Redressal",
         ["grievance", "complaint"],
         Some("grievance.psp@kiit.ac.in"), Some("https://kiit.ac.in/grievance/"))

  const InternalComplaints: CategoryRule :=
    Rule("Internal Complaints",
         ["sexual harassment", "icc"],
         None, Some("https://kiit.ac.in/internal-complaint-committee/"))

  const AntiRagging: CategoryRule :=
    Rule("Anti-Ragging",
         ["ragging"],
         None, Some("https://kiit.ac.in/antiragging/"))

  const OtherCategory: CategoryRule :=
    Rule("Other",
         [],
         Some("Not listed"), None)

  /** The registry in insertion order. */
  const Categories: seq<CategoryRule> := [
    BonafideCertificate,
    RailwayConcessionPass,
    GradeReportsCertificates,
    OpenElectivesOrDeptElectives,
    RankNoBacklogCertificate,
    GATECATSignature,
    RegistrationCard,
    MarksGradesDiscrepancy202223MTechPhD,
    MarksGradesDiscrepancy202425,
    CorrectionScholarship,
    FeeExtension,
    DemandLetterForLoan,
    LaptopIssues,
    EmailGroupIssues,
    LibraryIssues,
    FeeSAP,
    HostelIssues,
    PlacementInternship,
    Sports,
    KSAC,
    GradeSheetDownload,
    GuestHouse,
    MentorInfo,
    Counselling,
    CyberHelpdesk,
    SAPHelpdesk,
    CareerPlacement,
    NCCNSSRedCross,
    StudentSupport,
    GrievanceRedressal,
    InternalComplaints,
    AntiRagging,
    OtherCategory
  ]

  /** The keys of the registry, in order (`list(CATEGORY_KEYWORDS.keys())`). */
  function Names(rules: seq<CategoryRule>): (ns: seq<string>)
    ensures |ns| == |rules|
    ensures forall i :: 0 <= i < |rules| ==> ns[i] == rules[i].name
  {
    if rules == [] then [] else [rules[0].name] + Names(rules[1..])
  }

  predicate ValidKeyword(k: string) {
    k != [] && forall i :: 0 <= i < |k| ==> k[i] != ','
  }

  /** What a registry must satisfy: unique keys, as in a dict, and the
      catch-all among them. */
  predicate WellFormed(rules: seq<CategoryRule>) {
    (forall i, j :: 0 <= i < j < |rules| ==> rules[i].name != rules[j].name)
    && CatchAll in Names(rules)
  }

  /** `CATEGORY_KEYWORDS[name]` for a name that is a key. */
  function Entry(rules: seq<CategoryRule>, name: string): (r: CategoryRule)
    requires name in Names(rules)
    ensures r in rules && r.name == name
  {
    if rules[0].name == name then rules[0] else Entry(rules[1..], name)
  }

  /** With unique keys, looking a key up finds the one entry that has it. */
  lemma {:induction false} EntryIsUnique(rules: seq<CategoryRule>, m: nat)
    requires forall i, j :: 0 <= i < j < |rules| ==> rules[i].name != rules[j].name
    requires m < |rules|
    ensures Entry(rules, rules[m].name) == rules[m]
  {
    if m > 0 {
      assert rules[0].name != rules[m].name;
      EntryIsUnique(rules[1..], m - 1);
    }
  }

  // The registry's keys are distinct, checked block by block.

  lemma NamesDistinct0x0()
    ensures forall i, j :: 0 <= i < 8 && 0 <= j < 8 && i < j ==> Categories[i].name != Categories[j].name
  {
  }

  lemma NamesDistinct0x8()
    ensures forall i, j :: 0 <= i < 8 && 8 <= j < 16 && i < j ==> Categories[i].name != Categories[j].name
  {
  }

  lemma NamesDistinct0x16()
    ensures forall i, j :: 0 <= i < 8 && 16 <= j < 24 && i < j ==> Categories[i].name != Categories[j].name
  {
  }

  lemma NamesDistinct0x24()
    ensures forall i, j :: 0 <= i < 8 && 24 <= j < 33 && i < j ==> Categories[i].name != Categories[j].name
  {
  }

  lemma NamesDistinct8x8()
    ensures forall i, j :: 8 <= i < 16 && 8 <= j < 16 && i < j ==> Categories[i].name != Categories[j].name
  {
  }

  lemma NamesDistinct8x16()
    ensures forall i, j :: 8 <= i < 16 && 16 <= j < 24 && i < j ==> Categories[i].name != Categories[j].name
  {
  }

  lemma NamesDistinct8x24()
    ensures forall i, j :: 8 <= i < 16 && 24 <= j < 33 && i < j ==> Categories[i].name != Categories[j].name
  {
  }

  lemma NamesDistinct16x16()
    ensures forall i, j :: 16 <= i < 24 && 16 <= j < 24 && i < j ==> Categories[i].name != Categories[j].name
  {
  }

  lemma NamesDistinct16x24()
    ensures forall i, j :: 16 <= i < 24 && 24 <= j < 33 && i < j ==> Categories[i].name != Categories[j].name
  {
  }

  lemma NamesDistinct24x24()
    ensures forall i, j :: 24 <= i < 33 && 24 <= j < 33 && i < j ==> Categories[i].name != Categories[j].name
  {
  }

  /** The registry is well formed: its keys are distinct and "Other" is one
      of them. */
  lemma RegistryWellFormed()
    ensures WellFormed(Categories)
  {
    NamesDistinct0x0();
    NamesDistinct0x8();
    NamesDistinct0x16();
    NamesDistinct0x24();
    NamesDistinct8x8();
    NamesDistinct8x16();
    NamesDistinct8x24();
    NamesDistinct16x16();
    NamesDistinct16x24();
    NamesDistinct24x24();
    assert Names(Categories)[32] == CatchAll;
  }

  /** The catch-all entry has no keywords, so only the fallback reaches it. */
  lemma CatchAllHasNoKeywords()
    ensures CatchAll in Names(Categories)
    ensures Entry(Categories, CatchAll).keywords == []
  {
    RegistryWellFormed();
    assert Categories[32] == OtherCategory;
    EntryIsUnique(Categories, 32);
  }
}
