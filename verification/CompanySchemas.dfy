/** The schemas of the messages of the company service that are modelled. */
module CompanySchemas {
  import opened Schemas

  const DIRECTORY_ENTRY := Schema([
    Field(1, KString),  // UserUuid
    Field(2, KString),  // InternalId
    Field(3, KString),  // CompanyUuid
    Field(5, KString),  // Name
    Field(6, KString),  // Email
    Field(7, KBool),    // ConfirmedAndActive
    Field(8, KString),  // Phonenumber
    Field(9, KString)   // PhotoUrl
  ])

  const TEAM := Schema([
    Field(1, KString),  // Uuid
    Field(2, KString),  // CompanyUuid
    Field(3, KString),  // Name
    Field(4, KBool),    // Archived
    Field(5, KString),  // Timezone
    Field(6, KString),  // DayWeekStarts
    Field(7, KString),  // Color
    Field(8, KInt32)    // Version
  ])

  const TEAM_LIST := Schema([
    Field(1, KMessages(TEAM)),  // Teams
    Field(2, KInt32)            // Version
  ])

  const ASSOCIATION := Schema([
    Field(1, KMessage(DIRECTORY_ENTRY)),  // Account
    Field(2, KMessages(TEAM)),            // Teams
    Field(3, KBool)                       // Admin
  ])

  const ASSOCIATION_LIST := Schema([
    Field(1, KMessages(ASSOCIATION)),  // Accounts
    Field(2, KInt32),                  // Limit
    Field(3, KInt32)                   // Offset
  ])

  const ROWS_OF_COMPANY := Schema([Field(1, KStrings)])  // CompanyUuid

  const DIRECTORY_ID := Schema([
    Field(1, KString),  // InternalId
    Field(2, KString)   // UserUuid
  ])

  const ROWS_OF_DIRECTORY := Schema([Field(1, KMessages(DIRECTORY_ID))])  // DirectoryIds

  const WORKER := Schema([
    Field(1, KString),  // CompanyUuid
    Field(2, KString),  // TeamUuid
    Field(3, KString),  // UserUuid
    Field(4, KInt32)    // Version
  ])

  const WORKER_LIST_REQUEST := Schema([
    Field(1, KString),  // CompanyUuid
    Field(2, KString)   // TeamUuid
  ])

  const GROWTH_GRAPH_RESPONSE := Schema([
    Field(1, KMap),   // PeopleScheduledPerWeek
    Field(2, KInt32)  // PeopleOnShifts
  ])

  lemma DirectoryEntryIsValid()
    ensures ValidSchema(DIRECTORY_ENTRY)
  {
    var f := DIRECTORY_ENTRY.fields;
    assert |f| == 8 && f[0].num == 1 && f[1].num == 2 && f[2].num == 3 && f[3].num == 5;
    assert f[4].num == 6 && f[5].num == 7 && f[6].num == 8 && f[7].num == 9;
  }

  lemma TeamIsValid()
    ensures ValidSchema(TEAM)
  {
  }

  lemma TeamListIsValid()
    ensures ValidSchema(TEAM_LIST)
  {
    TeamIsValid();
  }

  lemma AssociationIsValid()
    ensures ValidSchema(ASSOCIATION)
  {
    DirectoryEntryIsValid();
    TeamIsValid();
  }

  lemma AssociationListIsValid()
    ensures ValidSchema(ASSOCIATION_LIST)
  {
    AssociationIsValid();
  }

  lemma RowsOfCompanyIsValid()
    ensures ValidSchema(ROWS_OF_COMPANY)
  {
  }

  lemma DirectoryIdIsValid()
    ensures ValidSchema(DIRECTORY_ID)
  {
  }

  lemma RowsOfDirectoryIsValid()
    ensures ValidSchema(ROWS_OF_DIRECTORY)
  {
    DirectoryIdIsValid();
  }

  lemma WorkerIsValid()
    ensures ValidSchema(WORKER)
  {
  }

  lemma WorkerListRequestIsValid()
    ensures ValidSchema(WORKER_LIST_REQUEST)
  {
  }

  lemma GrowthGraphResponseIsValid()
    ensures ValidSchema(GROWTH_GRAPH_RESPONSE)
  {
  }
}
