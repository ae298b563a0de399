/** Who is notified of a notice and who can read it: two routes through the same tables. */
module NoticeAudience {
  import opened Wrappers

  datatype Role = SuperAdmin | SchoolAdmin | Teacher | Student | Parent | Other

  datatype Scope = Universal | SchoolWide | ClassSpecific | GradeLevel

  /** Missing identifiers are empty strings. */
  datatype Notice = Notice(scope: Scope, classId: string, grade: Option<int>, medium: Option<string>, archived: bool,
                           expiresAt: Option<int>)

  datatype User = User(id: string, role: Role, active: bool)
  datatype StudentRow = StudentRow(id: string, userId: string, classId: string, medium: string)
  datatype ParentRow = ParentRow(userId: string, studentId: string)
  datatype TeacherRow = TeacherRow(id: string, userId: string)
  datatype Assignment = Assignment(teacherId: string, classId: string)

  /** One tenant's tables; `grades` gives the grade of each class, if it has one. */
  datatype School = School(users: seq<User>, students: seq<StudentRow>, parents: seq<ParentRow>,
                           teachers: seq<TeacherRow>, assignments: seq<Assignment>, grades: map<string, Option<int>>)

  // ----- resolveNoticeRecipients ------------------------------------------------------

  predicate Wide(n: Notice) { n.scope == Universal || n.scope == SchoolWide }

  /** The classes that a targeted notice is for. */
  function TargetClasses(s: School, n: Notice): set<string> {
    if n.scope == ClassSpecific then (if n.classId == "" then {} else {n.classId})
    else if n.scope == GradeLevel && n.grade.Some? then set c | c in s.grades && s.grades[c] == n.grade
    else {}
  }

  predicate InMedium(n: Notice, medium: string) { n.medium.Some? ==> medium == n.medium.value }

  function TargetStudents(s: School, n: Notice): set<StudentRow> {
    if Wide(n) then set r | r in s.students && InMedium(n, r.medium)
    else set r | r in s.students && r.classId in TargetClasses(s, n) && InMedium(n, r.medium)
  }

  /** The users behind some students: the students themselves and their parents. */
  function Families(s: School, rows: set<StudentRow>): set<string> {
    (set r | r in rows && r.userId != "" :: r.userId)
    + (set p, r | p in s.parents && r in rows && p.studentId == r.id && p.userId != "" :: p.userId)
  }

  function TeachersOf(s: School, classes: set<string>): set<string> {
    set a, t | a in s.assignments && t in s.teachers && a.classId in classes && t.id == a.teacherId &&
      t.userId != "" :: t.userId
  }

  function Staff(s: School): set<string> {
    set u | u in s.users && u.active && u.role in {Teacher, SchoolAdmin, SuperAdmin} :: u.id
  }

  function ActiveUsers(s: School): set<string> { set u | u in s.users && u.active :: u.id }

  /** `resolveNoticeRecipients`. */
  function Recipients(s: School, n: Notice): set<string> {
    if Wide(n) then
      if n.medium.Some? then Families(s, TargetStudents(s, n)) + Staff(s) else ActiveUsers(s)
    else if TargetClasses(s, n) == {} then {}
    else Families(s, TargetStudents(s, n)) + TeachersOf(s, TargetClasses(s, n))
  }

  // ----- getNotices ---------------------------------------------------------------------

  function StudentRows(s: School, userId: string): set<int> {
    set i | 0 <= i < |s.students| && s.students[i].userId == userId
  }

  function TeacherRows(s: School, userId: string): set<int> {
    set i | 0 <= i < |s.teachers| && s.teachers[i].userId == userId
  }

  /** The only row of a query, or none if there are several. */
  predicate Single(rows: set<int>, i: int) { rows == {i} }

  predicate IsStudent(s: School, id: string, i: int) { 0 <= i < |s.students| && s.students[i].id == id }

  /** The classes that a caller's default view covers. */
  ghost predicate Covers(s: School, userId: string, role: Role, classId: string) {
    classId != "" &&
    match role
    case Student =>
      exists i :: Single(StudentRows(s, userId), i) && 0 <= i < |s.students| && s.students[i].classId == classId
    case Parent =>
      exists p, i :: p in s.parents && p.userId == userId && IsStudent(s, p.studentId, i) &&
                     s.students[i].classId == classId
    case Teacher =>
      exists i, a :: Single(TeacherRows(s, userId), i) && 0 <= i < |s.teachers| && a in s.assignments
                     && a.teacherId == s.teachers[i].id && a.classId == classId
    case _ => false
  }

  predicate Live(n: Notice, now: int) { !n.archived && (n.expiresAt.Some? ==> n.expiresAt.value > now) }

  ghost predicate CoversGrade(s: School, userId: string, role: Role, grade: int) {
    exists c :: Covers(s, userId, role, c) && c in s.grades && s.grades[c] == Some(grade)
  }

  /** Whether the caller's default list shows a notice. */
  ghost predicate Sees(s: School, userId: string, role: Role, n: Notice, now: int) {
    Live(n, now) &&
    (role == SuperAdmin || role == SchoolAdmin || Wide(n)
     || (n.scope == ClassSpecific && Covers(s, userId, role, n.classId))
     || (n.scope == GradeLevel && n.grade.Some? && CoversGrade(s, userId, role, n.grade.value)))
  }

  // ----- the two routes agree --------------------------------------------------------------

  /** Each user has the role that the rows naming the user say, and is one student or one teacher at most;
      identifiers of students and teachers are unique, and missing ones name nobody. */
  predicate Regular(s: School, roles: map<string, Role>) {
    && (forall i :: 0 <= i < |s.students| && s.students[i].userId != "" ==>
          s.students[i].userId in roles && roles[s.students[i].userId] == Student &&
            StudentRows(s, s.students[i].userId) == {i})
    && (forall i :: 0 <= i < |s.teachers| && s.teachers[i].userId != "" ==>
          s.teachers[i].userId in roles && roles[s.teachers[i].userId] == Teacher &&
            TeacherRows(s, s.teachers[i].userId) == {i})
    && (forall p :: p in s.parents && p.userId != "" ==> p.userId in roles && roles[p.userId] == Parent)
    && (forall i, j :: 0 <= i < j < |s.students| ==> s.students[i].id != s.students[j].id)
    && "" !in s.grades
  }

  /** A targeted notice reaches a user through one of the targeted classes. */
  lemma RecipientCovers(s: School, roles: map<string, Role>, n: Notice, userId: string) returns (c: string)
    requires Regular(s, roles) && !Wide(n) && userId in Recipients(s, n)
    ensures userId in roles && Covers(s, userId, roles[userId], c) && c in TargetClasses(s, n)
  {
    var rows, classes := TargetStudents(s, n), TargetClasses(s, n);
    assert "" !in classes;
    if r :| r in rows && r.userId != "" && r.userId == userId {
      c := r.classId;
      var i :| 0 <= i < |s.students| && s.students[i] == r;
      assert Single(StudentRows(s, userId), i);
    } else if p, r :| p in s.parents && r in rows && p.studentId == r.id && p.userId != "" && p.userId == userId {
      c := r.classId;
      var i :| 0 <= i < |s.students| && s.students[i] == r;
      assert IsStudent(s, p.studentId, i);
    } else {
      assert userId in TeachersOf(s, classes);
      var a, t :| a in s.assignments && t in s.teachers && a.classId in classes && t.id == a.teacherId &&
          t.userId != "" && t.userId == userId;
      c := a.classId;
      var i :| 0 <= i < |s.teachers| && s.teachers[i] == t;
      assert Single(TeacherRows(s, userId), i);
    }
  }

  /** Everyone who is notified of a live notice finds it in the list. */
  lemma RecipientsSee(s: School, roles: map<string, Role>, n: Notice, userId: string, now: int)
    requires Regular(s, roles) && Live(n, now) && userId in Recipients(s, n) && userId in roles
    ensures Sees(s, userId, roles[userId], n, now)
  {
    if !Wide(n) {
      var c := RecipientCovers(s, roles, n, userId);
      hide Regular, Covers, Recipients;
    }
  }

  predicate Enrolled(role: Role) { role == Student || role == Parent || role == Teacher }

  /** A class that a user's list covers leads to the user as a recipient, media aside. */
  lemma CoveredReceives(s: School, n: Notice, userId: string, role: Role, c: string)
    requires !Wide(n) && n.medium.None? && userId != "" && Enrolled(role)
    requires Covers(s, userId, role, c) && c in TargetClasses(s, n)
    ensures userId in Recipients(s, n)
  {
    var rows, classes := TargetStudents(s, n), TargetClasses(s, n);
    if role == Student {
      var i :| Single(StudentRows(s, userId), i) && 0 <= i < |s.students| && s.students[i].classId == c;
      assert i in StudentRows(s, userId);
      assert s.students[i] in s.students && s.students[i] in rows;
    } else if role == Parent {
      var p, i :| p in s.parents && p.userId == userId && IsStudent(s, p.studentId, i) && s.students[i].classId == c;
      assert s.students[i] in s.students && s.students[i] in rows;
    } else {
      var i, a :| Single(TeacherRows(s, userId), i) && 0 <= i < |s.teachers| && a in s.assignments
                  && a.teacherId == s.teachers[i].id && a.classId == c;
      assert i in TeacherRows(s, userId);
      assert s.teachers[i] in s.teachers;
      assert userId in TeachersOf(s, classes);
    }
  }

  function AnyMedium(n: Notice): Notice { n.(medium := None) }

  /** Students, parents and teachers see exactly the live targeted notices that they would be notified of
      if the notice named no medium: the list does not look at the medium, the notification does. */
  lemma SeesIff(s: School, roles: map<string, Role>, n: Notice, userId: string, now: int)
    requires Regular(s, roles) && Live(n, now) && !Wide(n) && userId != "" && userId in roles && Enrolled(roles[userId])
    ensures Sees(s, userId, roles[userId], n, now) <==> userId in Recipients(s, AnyMedium(n))
    ensures userId in Recipients(s, n) ==> Sees(s, userId, roles[userId], n, now)
  {
    var role, m := roles[userId], AnyMedium(n);
    assert TargetClasses(s, m) == TargetClasses(s, n);
    if userId in Recipients(s, m) {
      RecipientsSee(s, roles, m, userId, now);
    }
    if userId in Recipients(s, n) {
      RecipientsSee(s, roles, n, userId, now);
    }
    if Sees(s, userId, role, n, now) {
      var c := SeenThrough(s, n, userId, role, now);
      CoveredReceives(s, m, userId, role, c);
    }
    hide Regular, Recipients, Covers;
  }

  lemma SeenThrough(s: School, n: Notice, userId: string, role: Role, now: int) returns (c: string)
    requires Sees(s, userId, role, n, now) && !Wide(n) && Enrolled(role)
    ensures Covers(s, userId, role, c) && c in TargetClasses(s, n)
  {
    hide Covers;
    if n.scope == ClassSpecific {
      c := n.classId;
      CoversSome(s, userId, role, c);
    } else {
      c :| Covers(s, userId, role, c) && c in s.grades && s.grades[c] == Some(n.grade.value);
    }
  }

  lemma CoversSome(s: School, userId: string, role: Role, c: string)
    requires Covers(s, userId, role, c)
    ensures c != ""
  {
  }

  /** A student with a row in a targeted class is notified, whatever other rows there are, and sees the
      notice exactly if that row is the only one. */
  lemma StudentSeesIff(s: School, n: Notice, i: nat, now: int)
    requires i < |s.students| && s.students[i].userId != "" && s.students[i].classId != ""
    requires !Wide(n) && n.medium.None? && Live(n, now) && s.students[i].classId in TargetClasses(s, n)
    ensures var u := s.students[i].userId;
            u in Recipients(s, n) && (Sees(s, u, Student, n, now) <==> StudentRows(s, u) == {i})
  {
    var u := s.students[i].userId;
    assert s.students[i] in s.students && s.students[i] in TargetStudents(s, n);
    assert i in StudentRows(s, u);
    if StudentRows(s, u) == {i} {
      assert Single(StudentRows(s, u), i);
      assert Covers(s, u, Student, s.students[i].classId);
    }
    if Sees(s, u, Student, n, now) {
      var c := SeenThrough(s, n, u, Student, now);
      var k :| Single(StudentRows(s, u), k) && 0 <= k < |s.students| && s.students[k].classId == c;
    }
  }

  /** Two rows of one student, as a concrete input: notified through either class, and shown nothing. */
  lemma TwoRowsSeeNothing(userId: string, c: string, d: string, now: int)
    requires userId != "" && c != "" && d != ""
    ensures var s := School([], [StudentRow("1", userId, c, ""), StudentRow("2", userId, d, "")], [], [], [], map[]);
            var n := Notice(ClassSpecific, c, None, None, false, None);
            userId in Recipients(s, n) && Live(n, now) && !Sees(s, userId, Student, n, now)
  {
    var s := School([], [StudentRow("1", userId, c, ""), StudentRow("2", userId, d, "")], [], [], [], map[]);
    var n := Notice(ClassSpecific, c, None, None, false, None);
    StudentSeesIff(s, n, 0, now);
    assert 1 in StudentRows(s, userId);
  }

  /** Likewise a teacher with an assignment in a targeted class: notified in any case, and shown the notice
      exactly if the teacher's row is the only one. */
  lemma TeacherSeesIff(s: School, n: Notice, i: nat, a: Assignment, now: int)
    requires i < |s.teachers| && s.teachers[i].userId != "" && a in s.assignments && a.teacherId == s.teachers[i].id
    requires !Wide(n) && Live(n, now) && a.classId != "" && a.classId in TargetClasses(s, n)
    ensures var u := s.teachers[i].userId;
            u in Recipients(s, n) && (Sees(s, u, Teacher, n, now) <==> TeacherRows(s, u) == {i})
  {
    var u := s.teachers[i].userId;
    assert s.teachers[i] in s.teachers && u in TeachersOf(s, TargetClasses(s, n));
    assert i in TeacherRows(s, u);
    if TeacherRows(s, u) == {i} {
      assert Single(TeacherRows(s, u), i);
      assert Covers(s, u, Teacher, a.classId);
    }
    if Sees(s, u, Teacher, n, now) {
      var c := SeenThrough(s, n, u, Teacher, now);
      var k, b :| Single(TeacherRows(s, u), k) && 0 <= k < |s.teachers| && b in s.assignments
                  && b.teacherId == s.teachers[k].id && b.classId == c;
    }
  }

  // ----- media ----------------------------------------------------------------------------

  /** A student row that stands for the user: the user's own or a child's. */
  predicate Behind(s: School, userId: string, r: StudentRow) {
    r.userId == userId || exists p :: p in s.parents && p.userId == userId && p.studentId == r.id
  }

  /** Some student behind the user is in a targeted class and in the notice's medium. */
  predicate MediumReaches(s: School, userId: string, n: Notice) {
    exists r :: r in s.students && Behind(s, userId, r) && r.classId in TargetClasses(s, n) && InMedium(n, r.medium)
  }

  lemma ReachedReceives(s: School, n: Notice, userId: string)
    requires !Wide(n) && userId != "" && MediumReaches(s, userId, n)
    ensures userId in Recipients(s, n)
  {
    var r :| r in s.students && Behind(s, userId, r) && r.classId in TargetClasses(s, n) && InMedium(n, r.medium);
    assert r in TargetStudents(s, n);
    if r.userId != userId {
      var p :| p in s.parents && p.userId == userId && p.studentId == r.id;
    }
  }

  lemma FamilyReached(s: School, n: Notice, userId: string)
    requires !Wide(n) && userId in Families(s, TargetStudents(s, n))
    ensures MediumReaches(s, userId, n)
  {
    if r :| r in TargetStudents(s, n) && r.userId != "" && r.userId == userId {
      assert Behind(s, userId, r);
    } else {
      var p, r :| p in s.parents && r in TargetStudents(s, n) && p.studentId == r.id && p.userId != "" &&
          p.userId == userId;
      assert Behind(s, userId, r);
    }
  }

  /** A user who sees a targeted notice is notified of it exactly if the user is a teacher, or some student
      behind the user in a targeted class is in the notice's medium. */
  lemma SeenNotifiedIff(s: School, roles: map<string, Role>, n: Notice, userId: string, now: int)
    requires Regular(s, roles) && !Wide(n) && userId != "" && userId in roles && Enrolled(roles[userId])
    requires Sees(s, userId, roles[userId], n, now)
    ensures userId in Recipients(s, n) <==> roles[userId] == Teacher || MediumReaches(s, userId, n)
  {
    var c := SeenThrough(s, n, userId, roles[userId], now);
    if roles[userId] == Teacher {
      TeacherReceives(s, n, userId, c);
    }
    if MediumReaches(s, userId, n) {
      ReachedReceives(s, n, userId);
    }
    if userId in Recipients(s, n) && roles[userId] != Teacher {
      NoTeacher(s, roles, n, userId);
      FamilyReached(s, n, userId);
    }
    hide *;
  }

  lemma TeacherReceives(s: School, n: Notice, userId: string, c: string)
    requires !Wide(n) && userId != "" && Covers(s, userId, Teacher, c) && c in TargetClasses(s, n)
    ensures userId in Recipients(s, n)
  {
    var i, a :| Single(TeacherRows(s, userId), i) && 0 <= i < |s.teachers| && a in s.assignments
                && a.teacherId == s.teachers[i].id && a.classId == c;
    assert i in TeacherRows(s, userId) && s.teachers[i] in s.teachers;
    assert userId in TeachersOf(s, TargetClasses(s, n));
  }

  lemma NoTeacher(s: School, roles: map<string, Role>, n: Notice, userId: string)
    requires Regular(s, roles) && !Wide(n) && userId in roles && roles[userId] != Teacher && userId in Recipients(s, n)
    ensures userId in Families(s, TargetStudents(s, n))
  {
    forall t | t in s.teachers && t.userId != "" ensures t.userId in roles && roles[t.userId] == Teacher {
      var i :| 0 <= i < |s.teachers| && s.teachers[i] == t;
    }
    assert userId !in TeachersOf(s, TargetClasses(s, n));
  }

  /** A student of another medium sees the notice and is not notified of it. */
  lemma OtherMediumSees(userId: string, c: string, taught: string, named: string, now: int)
    requires userId != "" && c != "" && taught != named
    ensures var s := School([], [StudentRow("1", userId, c, taught)], [], [], [], map[]);
            var n := Notice(ClassSpecific, c, None, Some(named), false, None);
            Sees(s, userId, Student, n, now) && userId !in Recipients(s, n)
  {
    var s := School([], [StudentRow("1", userId, c, taught)], [], [], [], map[]);
    var n := Notice(ClassSpecific, c, None, Some(named), false, None);
    assert Single(StudentRows(s, userId), 0);
    assert Covers(s, userId, Student, c);
  }

  // ----- both routes, read off the tables ---------------------------------------------------

  /** The user is active staff. */
  predicate ActiveStaff(s: School, userId: string) {
    exists u :: u in s.users && u.id == userId && u.active
                && (u.role == Teacher || u.role == SchoolAdmin || u.role == SuperAdmin)
  }

  /** The class is targeted: named by the notice, or of the grade that it names. */
  predicate Targets(s: School, n: Notice, classId: string) {
    || (n.scope == ClassSpecific && n.classId == classId != "")
    || (n.scope == GradeLevel && n.grade.Some? && classId in s.grades && s.grades[classId] == Some(n.grade.value))
  }

  predicate Teaches(s: School, userId: string, classId: string) {
    exists a, t ::
      a in s.assignments && t in s.teachers && a.teacherId == t.id && a.classId == classId && t.userId == userId
  }

  /** Who is notified, for every notice. A notice to the school reaches the active users, or, if it names
      a medium, the active staff, the students of that medium and their parents; a targeted one reaches the
      students of the classes, in the medium if one is named, their parents, and the classes' teachers. */
  lemma RecipientsIff(s: School, n: Notice, userId: string)
    ensures userId in Recipients(s, n) <==>
              if n.scope == Universal || n.scope == SchoolWide then
                if n.medium.None? then exists u :: u in s.users && u.id == userId && u.active
                else
                  || ActiveStaff(s, userId)
                  || (userId != "" && exists r :: r in s.students && r.medium == n.medium.value && Behind(s, userId, r))
              else
                userId != "" &&
                (|| (exists r :: r in s.students && Targets(s, n, r.classId) && Behind(s, userId, r)
                                 && (n.medium.None? || r.medium == n.medium.value))
                 || (exists c :: Targets(s, n, c) && Teaches(s, userId, c)))
  {
    if Wide(n) {
      hide TargetClasses, TeachersOf;
      if n.medium.Some? {
        FamilyIff(s, TargetStudents(s, n), userId);
        StaffIff(s, userId);
      }
    } else {
      TargetsIff(s, n);
      FamilyIff(s, TargetStudents(s, n), userId);
      TeachersIff(s, n, userId);
      hide Families, TeachersOf, Targets, Teaches, Behind, TargetClasses;
    }
  }

  lemma FamilyIff(s: School, rows: set<StudentRow>, userId: string)
    ensures userId in Families(s, rows) <==> userId != "" && exists r :: r in rows && Behind(s, userId, r)
  {
  }

  lemma StaffIff(s: School, userId: string)
    ensures userId in Staff(s) <==> ActiveStaff(s, userId)
  {
  }

  lemma TargetsIff(s: School, n: Notice)
    ensures forall c :: Targets(s, n, c) <==> !Wide(n) && c in TargetClasses(s, n)
  {
  }

  lemma TeachersIff(s: School, n: Notice, userId: string)
    requires !Wide(n)
    ensures userId in TeachersOf(s, TargetClasses(s, n))
            <==> userId != "" && exists c :: Targets(s, n, c) && Teaches(s, userId, c)
  {
    TargetsIff(s, n);
    hide Targets, TargetClasses;
  }

  /** A notice to the whole school is seen by every caller while it lives. Without a medium, the active users
      are notified; with one, whoever sees it is notified exactly as active staff or as or for a student of
      the medium. */
  lemma WideSeenNotified(s: School, n: Notice, u: User, now: int)
    requires n.scope == Universal || n.scope == SchoolWide
    requires !n.archived && (n.expiresAt.None? || n.expiresAt.value > now) && u in s.users && u.id != ""
    ensures Sees(s, u.id, u.role, n, now)
    ensures n.medium.None? && u.active ==> u.id in Recipients(s, n)
    ensures n.medium.None? && (forall v :: v in s.users && v.id == u.id ==> v == u) && !u.active ==>
              u.id !in Recipients(s, n)
    ensures n.medium.Some? ==>
              (u.id in Recipients(s, n)
               <==> ActiveStaff(s, u.id)
                    || (exists r :: r in s.students && r.medium == n.medium.value && Behind(s, u.id, r)))
  {
    RecipientsIff(s, n, u.id);
    hide Recipients, ActiveStaff, Behind;
  }

  /** Nobody sees a notice that is archived or past its time; an administrator sees every other; and a caller
      without a class of any kind sees those to the whole school alone. */
  lemma OthersSee(s: School, n: Notice, userId: string, role: Role, now: int)
    ensures n.archived || (n.expiresAt.Some? && n.expiresAt.value <= now) ==> !Sees(s, userId, role, n, now)
    ensures !n.archived && (n.expiresAt.None? || n.expiresAt.value > now) ==>
              && (role == SuperAdmin || role == SchoolAdmin ==> Sees(s, userId, role, n, now))
              && (role == Other ==> (Sees(s, userId, role, n, now) <==> n.scope == Universal || n.scope == SchoolWide))
  {
  }

  // ----- building the caller's sets -----------------------------------------------------------

  /** The two sets that `getNotices` fills for a parent: the children's classes and their grades. */
  method ChildrenSets(s: School, userId: string) returns (classIds: set<string>, grades: set<int>)
    ensures forall c :: c in classIds <==> Covers(s, userId, Parent, c)
    ensures forall g :: g in grades <==> CoversGrade(s, userId, Parent, g)
  {
    classIds, grades := {}, {};
    for k := 0 to |s.parents|
      invariant forall c :: c in classIds <==> ChildIn(s, userId, k, c)
      invariant forall g :: g in grades <==> exists c :: c in classIds && c in s.grades && s.grades[c] == Some(g)
    {
      var p := s.parents[k];
      if p.userId == userId {
        for i := 0 to |s.students|
          invariant forall c :: c in classIds <==> ChildIn(s, userId, k, c) || ChildAmong(s, p, i, c)
          invariant forall g :: g in grades <==> exists c :: c in classIds && c in s.grades && s.grades[c] == Some(g)
        {
          var r := s.students[i];
          if r.id == p.studentId && r.classId != "" {
            classIds := classIds + {r.classId};
            if r.classId in s.grades && s.grades[r.classId].Some? {
              grades := grades + {s.grades[r.classId].value};
            }
          }
        }
      }
    }
    forall c ensures ChildIn(s, userId, |s.parents|, c) <==> Covers(s, userId, Parent, c) {
      if Covers(s, userId, Parent, c) {
        var p, i :| p in s.parents && p.userId == userId && IsStudent(s, p.studentId, i) && s.students[i].classId == c;
        var k :| 0 <= k < |s.parents| && s.parents[k] == p;
        assert ChildAmong(s, s.parents[k], |s.students|, c);
      }
    }
  }

  ghost predicate ChildAmong(s: School, p: ParentRow, n: nat, c: string) {
    c != "" && exists i :: 0 <= i < n && IsStudent(s, p.studentId, i) && s.students[i].classId == c
  }

  ghost predicate ChildIn(s: School, userId: string, n: nat, c: string) {
    exists k :: 0 <= k < n && k < |s.parents| && s.parents[k].userId == userId &&
           ChildAmong(s, s.parents[k], |s.students|, c)
  }
}
