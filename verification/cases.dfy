/** The case record every stage passes along: the five-field list
    `[caseNumber, title, dateFiled, link, jurisdictionType]`. Two records are
    the same case exactly when all five fields are equal, which is what the
    program's `case not in history` tests on these lists. */
module Cases {

  datatype Case = Case(
    caseNumber: string,
    title: string,
    dateFiled: string,
    link: string,
    jurisdictionType: string)
}
